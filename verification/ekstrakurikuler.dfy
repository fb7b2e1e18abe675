/**
  The quota rule of an extracurricular activity (an "ekstrakurikuler").

  An activity has a quota `kuota`; its voter count `jumlah_pemilih` is the
  number of votes that reference it. From those two naturals the model derives
  the fill percentage (exactly, in tenths of a percent), a four-way status
  label, whether one more voter can be accepted, how many seats are left, and
  the row predicate of the status filter that runs as SQL.
 */
module Ekstrakurikuler {
  import opened Wrappers

  /** A vote: which user voted for which activity. */
  datatype Vote = Vote(userId: nat, ekstrakurikulerId: nat)

  /** An activity record with its capacity. */
  datatype Activity = Activity(id: nat, nama: string, deskripsi: string, pembina: string, kuota: nat)

  /** The status label of an activity, in increasing order of fill. */
  datatype Status = Kosong | Tersedia | HampirPenuh | Penuh

  /** Position of a status in the order kosong < tersedia < hampir_penuh < penuh. */
  function Rank(s: Status): nat
  {
    match s
    case Kosong => 0
    case Tersedia => 1
    case HampirPenuh => 2
    case Penuh => 3
  }

  /** The string the accessor returns for a status. */
  function Label(s: Status): (r: string)
    ensures r in {"kosong", "tersedia", "hampir_penuh", "penuh"}
  {
    match s
    case Kosong => "kosong"
    case Tersedia => "tersedia"
    case HampirPenuh => "hampir_penuh"
    case Penuh => "penuh"
  }

  /** Different statuses have different labels. */
  lemma LabelInjective(s: Status, t: Status)
    ensures Label(s) == Label(t) ==> s == t
  {
  }

  /** Reads a filter argument; any string that is not one of the four labels is unrecognised. */
  function ParseLabel(s: string): (r: Option<Status>)
    ensures r.Some? ==> Label(r.value) == s
    ensures (exists t :: Label(t) == s) ==> r.Some?
  {
    if s == "kosong" then Some(Kosong)
    else if s == "tersedia" then Some(Tersedia)
    else if s == "hampir_penuh" then Some(HampirPenuh)
    else if s == "penuh" then Some(Penuh)
    else None
  }

  /** Reading back a label gives the status it was written from. */
  lemma ParseLabelRoundTrip(s: Status)
    ensures ParseLabel(Label(s)) == Some(s)
  {
  }

  // ---------------------------------------------------------------------------
  // Voter count
  // ---------------------------------------------------------------------------

  /** Number of votes in `votes` that reference activity `id`. */
  function JumlahPemilih(votes: seq<Vote>, id: nat): (n: nat)
    ensures n <= |votes|
    ensures n == 0 <==> forall i :: 0 <= i < |votes| ==> votes[i].ekstrakurikulerId != id
    ensures n == |votes| <==> forall i :: 0 <= i < |votes| ==> votes[i].ekstrakurikulerId == id
  {
    if |votes| == 0 then 0
    else
      var last := votes[|votes| - 1];
      JumlahPemilih(votes[..|votes| - 1], id) + (if last.ekstrakurikulerId == id then 1 else 0)
  }

  /** Counting over two batches of votes adds up. */
  lemma {:induction false} JumlahPemilihAppend(a: seq<Vote>, b: seq<Vote>, id: nat)
    ensures JumlahPemilih(a + b, id) == JumlahPemilih(a, id) + JumlahPemilih(b, id)
    decreases |b|
  {
    if |b| == 0 {
      assert a + b == a;
    } else {
      var b' := b[..|b| - 1];
      assert (a + b)[..|a + b| - 1] == a + b';
      assert (a + b)[|a + b| - 1] == b[|b| - 1];
      JumlahPemilihAppend(a, b', id);
    }
  }

  /**
    One more vote, wherever it lands in the ledger, raises the count of its own
    activity by exactly one and leaves every other activity's count alone.
   */
  lemma JumlahPemilihAfterVote(votes: seq<Vote>, i: nat, v: Vote, id: nat)
    requires i <= |votes|
    ensures JumlahPemilih(votes[..i] + [v] + votes[i..], id)
            == JumlahPemilih(votes, id) + (if v.ekstrakurikulerId == id then 1 else 0)
  {
    JumlahPemilihAppend(votes[..i] + [v], votes[i..], id);
    JumlahPemilihAppend(votes[..i], [v], id);
    JumlahPemilihAppend(votes[..i], votes[i..], id);
    assert votes[..i] + votes[i..] == votes;
  }

  // ---------------------------------------------------------------------------
  // Fill percentage, in tenths of a percent
  // ---------------------------------------------------------------------------

  /**
    The percentage `round(count / kuota * 100, 1)` as an integer number of
    tenths: 80.0 is 800. PHP rounds halves away from zero, which for the
    non-negative values here is rounding halves up.
   */
  function PersentaseKuota(count: nat, kuota: nat): (t: nat)
    ensures kuota == 0 ==> t == 0
    ensures kuota > 0 ==> 2 * kuota * t <= 2000 * count + kuota < 2 * kuota * (t + 1)
  {
    if kuota == 0 then 0
    else
      var a := 2000 * count + kuota;
      var b := 2 * kuota;
      DivBounds(a, b);
      a / b
  }

  /** The bounds in the contract of `PersentaseKuota` pin the rounded value down: no other number meets them. */
  lemma PersentaseKuotaUnique(count: nat, kuota: nat, t: int)
    requires kuota > 0
    requires 2 * kuota * t <= 2000 * count + kuota < 2 * kuota * (t + 1)
    ensures t == PersentaseKuota(count, kuota)
  {
    var p := PersentaseKuota(count, kuota);
    if t < p {
      MulMonotone(2 * kuota, t + 1, p);
      assert false;
    } else if p < t {
      MulMonotone(2 * kuota, p + 1, t);
      assert false;
    }
  }

  /** Comparing the rounded percentage with a threshold is comparing integers, without rounding. */
  lemma PersentaseAtLeast(count: nat, kuota: nat, m: int)
    requires kuota > 0
    ensures PersentaseKuota(count, kuota) >= m <==> 2000 * count + kuota >= 2 * kuota * m
  {
    DivAtLeast(2000 * count + kuota, 2 * kuota, m);
  }

  /** The three thresholds the status accessor compares against, as integer inequalities. */
  lemma PersentaseThresholds(count: nat, kuota: nat)
    ensures PersentaseKuota(count, kuota) >= 1000 <==> kuota > 0 && 2000 * count >= 1999 * kuota
    ensures PersentaseKuota(count, kuota) >= 800 <==> kuota > 0 && 2000 * count >= 1599 * kuota
    ensures PersentaseKuota(count, kuota) >= 1 ==> count > 0
  {
    if kuota > 0 {
      PersentaseAtLeast(count, kuota, 1000);
      PersentaseAtLeast(count, kuota, 800);
      PersentaseAtLeast(count, kuota, 1);
    }
  }

  /** No votes means 0.0 percent; a count at or above a positive quota means at least 100.0 percent. */
  lemma PersentaseKuotaBounds(count: nat, kuota: nat)
    ensures count == 0 ==> PersentaseKuota(count, kuota) == 0
    ensures kuota > 0 && count >= kuota ==> PersentaseKuota(count, kuota) >= 1000
  {
    if kuota > 0 {
      PersentaseAtLeast(count, kuota, 1);
      PersentaseAtLeast(count, kuota, 1000);
    }
  }

  /** One more vote never lowers the percentage. */
  lemma PersentaseKuotaMonotone(count: nat, count': nat, kuota: nat)
    requires count <= count'
    ensures PersentaseKuota(count, kuota) <= PersentaseKuota(count', kuota)
  {
    if kuota > 0 {
      var t := PersentaseKuota(count, kuota);
      PersentaseAtLeast(count, kuota, t);
      PersentaseAtLeast(count', kuota, t);
    }
  }

  // ---------------------------------------------------------------------------
  // Status label
  // ---------------------------------------------------------------------------

  /**
    The status accessor: the first of percentage >= 100, percentage >= 80,
    count > 0 that holds picks penuh, hampir_penuh, tersedia; otherwise kosong.
    The contract states each label by exact integer thresholds on count and
    quota, which shows where the rounding moves them: 99.95% already reads as
    penuh and 79.95% as hampir_penuh.
   */
  function StatusKuota(count: nat, kuota: nat): (s: Status)
    ensures s == Penuh <==> kuota > 0 && 2000 * count >= 1999 * kuota
    ensures s == HampirPenuh <==> kuota > 0 && 1599 * kuota <= 2000 * count < 1999 * kuota
    ensures s == Tersedia <==> count > 0 && (kuota == 0 || 2000 * count < 1599 * kuota)
    ensures s == Kosong <==> count == 0
  {
    var persentase := PersentaseKuota(count, kuota);
    PersentaseThresholds(count, kuota);
    if persentase >= 1000 then Penuh
    else if persentase >= 800 then HampirPenuh
    else if count > 0 then Tersedia
    else Kosong
  }

  /** Status of an activity given the ledger of votes. */
  function StatusOf(e: Activity, votes: seq<Vote>): (s: Status)
    ensures s == Kosong <==> forall i :: 0 <= i < |votes| ==> votes[i].ekstrakurikulerId != e.id
  {
    StatusKuota(JumlahPemilih(votes, e.id), e.kuota)
  }

  /** With quota 0 the percentage is 0, so the status is only ever tersedia or kosong. */
  lemma StatusZeroKuota(count: nat)
    ensures PersentaseKuota(count, 0) == 0
    ensures StatusKuota(count, 0) == (if count > 0 then Tersedia else Kosong)
  {
  }

  /** Adding votes never moves the status down the order kosong < tersedia < hampir_penuh < penuh. */
  lemma StatusMonotone(count: nat, count': nat, kuota: nat)
    requires count <= count'
    ensures Rank(StatusKuota(count, kuota)) <= Rank(StatusKuota(count', kuota))
  {
  }

  /** A positive quota that is reached or exceeded reads as penuh. */
  lemma FullQuotaIsPenuh(count: nat, kuota: nat)
    requires kuota > 0 && count >= kuota
    ensures StatusKuota(count, kuota) == Penuh
  {
  }

  // ---------------------------------------------------------------------------
  // Remaining capacity
  // ---------------------------------------------------------------------------

  /** Whether the activity can still accept a voter. */
  function BisaDipilih(count: nat, kuota: nat): (b: bool)
    ensures b <==> SisaKuota(count, kuota) > 0
    ensures kuota == 0 ==> !b
    ensures !b && kuota > 0 ==> StatusKuota(count, kuota) == Penuh
  {
    count < kuota
  }

  /** Seats left, `max(0, kuota - count)`. */
  function SisaKuota(count: nat, kuota: nat): (r: nat)
    ensures r <= kuota
    ensures count <= kuota ==> r == kuota - count
    ensures count >= kuota ==> r == 0
  {
    if count < kuota then kuota - count else 0
  }

  /** `SisaKuota` is exactly the number of further voters `BisaDipilih` admits: j more votes still leave room iff j is below it. */
  lemma SisaKuotaCountsSeats(count: nat, kuota: nat, j: nat)
    ensures BisaDipilih(count + j, kuota) <==> j < SisaKuota(count, kuota)
  {
  }

  /**
    The status and the capacity check disagree exactly when the quota is 0 (no
    seat, yet never penuh) or when the count rounds up to 100.0 percent while
    still below the quota.
   */
  lemma PenuhWhileSelectable(count: nat, kuota: nat)
    ensures StatusKuota(count, kuota) == Penuh && BisaDipilih(count, kuota)
            <==> 1999 * kuota <= 2000 * count && count < kuota
    ensures StatusKuota(count, kuota) == Penuh && BisaDipilih(count, kuota) ==> kuota >= 2000
    ensures (StatusKuota(count, kuota) == Penuh) != !BisaDipilih(count, kuota)
            <==> kuota == 0 || 1999 * kuota <= 2000 * count < 2000 * kuota
  {
  }

  /** Every quota of 2000 or more has a count that reads as penuh with a seat still left: one vote short of the quota. */
  lemma PenuhWhileSelectableWitness(kuota: nat)
    requires kuota >= 2000
    ensures StatusKuota(kuota - 1, kuota) == Penuh
    ensures BisaDipilih(kuota - 1, kuota)
    ensures SisaKuota(kuota - 1, kuota) == 1
  {
  }

  /** Quota 10000 with 9999 votes: 99.99% rounds to 100.0, so penuh, yet one seat is left. */
  lemma RoundingExample()
    ensures PersentaseKuota(9999, 10000) == 1000
    ensures StatusKuota(9999, 10000) == Penuh
    ensures BisaDipilih(9999, 10000) && SisaKuota(9999, 10000) == 1
  {
  }

  /** The worked examples with quota 30. */
  lemma QuotaThirtyScenarios()
    ensures PersentaseKuota(24, 30) == 800 && StatusKuota(24, 30) == HampirPenuh
    ensures PersentaseKuota(30, 30) == 1000 && StatusKuota(30, 30) == Penuh
    ensures PersentaseKuota(0, 30) == 0 && StatusKuota(0, 30) == Kosong
  {
  }

  // ---------------------------------------------------------------------------
  // Status filter (the SQL scope)
  // ---------------------------------------------------------------------------

  /**
    Whether a row with `count` votes and quota `kuota` passes the status
    filter. The SQL compares the raw count, not the rounded percentage;
    `count >= kuota * 0.8` is written `5 * count >= 4 * kuota`. An
    unrecognised status adds no condition.
   */
  function FilterByStatus(status: string, count: nat, kuota: nat): (selected: bool)
    ensures ParseLabel(status).None? ==> selected
    ensures status == "kosong" ==> (selected <==> StatusKuota(count, kuota) == Kosong)
    ensures status == "penuh" ==> (selected <==> !BisaDipilih(count, kuota))
    ensures status == "penuh" && kuota > 0 && selected ==> StatusKuota(count, kuota) == Penuh
    ensures status == "hampir_penuh" ==> (selected <==> BisaDipilih(count, kuota) && 5 * count >= 4 * kuota)
    ensures status == "hampir_penuh" && selected ==> Rank(StatusKuota(count, kuota)) >= 2
    ensures status == "tersedia"
            ==> (selected <==> BisaDipilih(count, kuota) && StatusKuota(count, kuota) != Kosong)
  {
    match ParseLabel(status)
    case None => true
    case Some(Penuh) => count >= kuota
    case Some(HampirPenuh) => 5 * count >= 4 * kuota && count < kuota
    case Some(Tersedia) => count > 0 && count < kuota
    case Some(Kosong) => count == 0
  }

  /** Every row the hampir_penuh filter selects is also selected by tersedia: the two filters overlap, unlike the labels. */
  lemma FilterHampirPenuhWithinTersedia(count: nat, kuota: nat)
    ensures FilterByStatus("hampir_penuh", count, kuota) ==> FilterByStatus("tersedia", count, kuota)
  {
  }

  /** Row labelled tersedia by the accessor with a positive quota is selected by the tersedia filter. */
  lemma TersediaSelectedByFilter(count: nat, kuota: nat)
    requires kuota > 0 && StatusKuota(count, kuota) == Tersedia
    ensures FilterByStatus("tersedia", count, kuota)
  {
  }

  /**
    With quota 0 the filter and the accessor part ways: the penuh filter picks
    every such row while the accessor never says penuh, and a row with votes
    reads as tersedia but the tersedia filter skips it.
   */
  lemma ZeroKuotaFilterMismatch(count: nat)
    ensures FilterByStatus("penuh", count, 0) && StatusKuota(count, 0) != Penuh
    ensures count > 0 ==> StatusKuota(count, 0) == Tersedia && !FilterByStatus("tersedia", count, 0)
  {
  }

  /** Rounding splits the hampir_penuh labels from the hampir_penuh filter in both directions. */
  lemma HampirPenuhFilterMismatch()
    ensures StatusKuota(7996, 10000) == HampirPenuh && !FilterByStatus("hampir_penuh", 7996, 10000)
    ensures StatusKuota(9999, 10000) == Penuh && FilterByStatus("hampir_penuh", 9999, 10000)
  {
  }

  /**
    Where the hampir_penuh filter and the hampir_penuh label disagree: counts
    that round up to 80.0 percent from just below it, and counts that round up
    to 100.0 percent while still below the quota.
   */
  lemma HampirPenuhFilterDisagreement(count: nat, kuota: nat)
    ensures FilterByStatus("hampir_penuh", count, kuota) != (StatusKuota(count, kuota) == HampirPenuh)
            <==> kuota > 0 && (1599 * kuota <= 2000 * count < 1600 * kuota || 1999 * kuota <= 2000 * count < 2000 * kuota)
  {
  }

  /**
    Where the tersedia filter and the tersedia label disagree: rows with votes
    and quota 0, and rows the label already counts as hampir_penuh or penuh
    while a seat is still left.
   */
  lemma TersediaFilterDisagreement(count: nat, kuota: nat)
    ensures FilterByStatus("tersedia", count, kuota) != (StatusKuota(count, kuota) == Tersedia)
            <==> count > 0 && (kuota == 0 || (1599 * kuota <= 2000 * count && count < kuota))
  {
  }

  /**
    Within the quotas the activity form accepts (1 to 200), neither rounding
    disagreement can occur: penuh is exactly "no seat left", and the
    hampir_penuh filter selects exactly the rows labelled hampir_penuh.
   */
  lemma FormQuotaAgreement(count: nat, kuota: nat)
    requires 1 <= kuota <= 200
    ensures StatusKuota(count, kuota) == Penuh <==> !BisaDipilih(count, kuota)
    ensures FilterByStatus("hampir_penuh", count, kuota) <==> StatusKuota(count, kuota) == HampirPenuh
  {
  }

  /** Whether activity `e` passes the status filter, given the ledger of votes. */
  predicate Passes(status: string, e: Activity, votes: seq<Vote>)
  {
    FilterByStatus(status, JumlahPemilih(votes, e.id), e.kuota)
  }

  /**
    `sub` can be obtained from `s` by deleting elements, keeping the order of
    the rest.
   */
  ghost predicate IsSubsequence<T>(sub: seq<T>, s: seq<T>)
    decreases |s|
  {
    if |sub| == 0 then true
    else if |s| == 0 then false
    else
      (sub[|sub| - 1] == s[|s| - 1] && IsSubsequence(sub[..|sub| - 1], s[..|s| - 1]))
      || IsSubsequence(sub, s[..|s| - 1])
  }

  /** Extending `s` by one element keeps `sub` a subsequence, with or without that element appended to `sub`. */
  lemma {:induction false} SubsequenceExtend<T>(sub: seq<T>, s: seq<T>, x: T)
    requires IsSubsequence(sub, s)
    ensures IsSubsequence(sub, s + [x])
    ensures IsSubsequence(sub + [x], s + [x])
  {
    assert (s + [x])[..|s|] == s;
    assert (sub + [x])[..|sub|] == sub;
  }

  /** The rows of `es` that pass the status filter, in their original order. */
  method FilterActivities(status: string, es: seq<Activity>, votes: seq<Vote>) returns (rs: seq<Activity>)
    ensures |rs| <= |es|
    ensures forall e :: e in rs <==> e in es && Passes(status, e, votes)
    ensures forall e :: multiset(rs)[e] == if Passes(status, e, votes) then multiset(es)[e] else 0
    ensures IsSubsequence(rs, es)
    ensures ParseLabel(status).None? ==> rs == es
  {
    rs := [];
    var i := 0;
    while i < |es|
      invariant 0 <= i <= |es|
      invariant |rs| <= i
      invariant forall e :: multiset(rs)[e] == if Passes(status, e, votes) then multiset(es[..i])[e] else 0
      invariant IsSubsequence(rs, es[..i])
      invariant ParseLabel(status).None? ==> rs == es[..i]
    {
      var e := es[i];
      assert es[..i + 1] == es[..i] + [e];
      SubsequenceExtend(rs, es[..i], e);
      if Passes(status, e, votes) {
        rs := rs + [e];
      }
      i := i + 1;
    }
    assert es[..i] == es;
  }

  // ---------------------------------------------------------------------------
  // Arithmetic helpers
  // ---------------------------------------------------------------------------

  lemma MulMonotone(b: int, x: int, y: int)
    requires b >= 0 && x <= y
    ensures b * x <= b * y
  {
    assert b * y - b * x == b * (y - x);
  }

  lemma DivBounds(a: int, b: int)
    requires b > 0
    ensures b * (a / b) <= a < b * (a / b + 1)
  {
    assert a == b * (a / b) + a % b;
  }

  lemma DivAtLeast(a: int, b: int, m: int)
    requires b > 0
    ensures a / b >= m <==> a >= b * m
  {
    var q := a / b;
    DivBounds(a, b);
    if q >= m {
      MulMonotone(b, m, q);
    } else {
      MulMonotone(b, q + 1, m);
    }
  }
}
