/** `admissions_over_time` with its default monthly frequency: the number of
    admissions in every calendar month from the first admission's month to
    the last one's, empty months included. */
module Admissions {
  import opened Calendar
  import opened Seqs
  import opened Frame
  import opened Cleaning

  /** What `resample` can bin: timestamps, with missing dates (NaT) skipped. */
  predicate Dated(cells: seq<Cell>) {
    forall k :: 0 <= k < |cells| ==> cells[k] == Missing || cells[k].Timestamp?
  }

  /** The calendar month of every known date, in row order. */
  function Months(cells: seq<Cell>): (r: seq<int>)
    requires Dated(cells)
    ensures |r| == |cells| - Count(cells, Missing)
    ensures forall m :: m in r <==> exists k :: 0 <= k < |cells| && cells[k].Timestamp? && MonthIndex(cells[k].date) == m
  {
    var known := Present(cells);
    PresentLength(cells);
    assert forall c :: c in known ==> c.Timestamp?;
    var r := seq(|known|, k requires 0 <= k < |known| => MonthIndex(known[k].date));
    assert forall m :: m in r ==> exists k :: 0 <= k < |cells| && cells[k].Timestamp? && MonthIndex(cells[k].date) == m by {
      forall m | m in r ensures exists k :: 0 <= k < |cells| && cells[k].Timestamp? && MonthIndex(cells[k].date) == m {
        var i :| 0 <= i < |r| && r[i] == m;
        assert known[i] in cells;
      }
    }
    assert forall k :: 0 <= k < |cells| && cells[k].Timestamp? ==> MonthIndex(cells[k].date) in r by {
      forall k | 0 <= k < |cells| && cells[k].Timestamp? ensures MonthIndex(cells[k].date) in r {
        assert cells[k] in known;
        var i :| 0 <= i < |known| && known[i] == cells[k];
        assert r[i] == MonthIndex(cells[k].date);
      }
    }
    r
  }

  /** Counts per month from the earliest month of `months` to the latest,
      in order, empty months included. */
  function MonthlyCounts(months: seq<int>): (r: seq<Tally<int>>)
    ensures r == [] <==> months == []
    ensures months != [] ==>
      r[0].key == Min(months) && r[|r| - 1].key == Max(months) &&
      r[0].size >= 1 && r[|r| - 1].size >= 1
    ensures forall k :: 0 <= k < |r| ==> r[k].key == r[0].key + k
    ensures forall k :: 0 <= k < |r| ==> r[k].size == Count(months, r[k].key)
    ensures forall m :: m in months ==> m in Keys(r)
  {
    if months == [] then []
    else
      var d := Range(Min(months), Max(months) + 1);
      var r := Tallies(months, d);
      MonthlyFacts(months, d, r);
      r
  }

  lemma MonthlyFacts(months: seq<int>, d: seq<int>, r: seq<Tally<int>>)
    requires months != [] && d == Range(Min(months), Max(months) + 1)
    requires r == Tallies(months, d)
    ensures r != []
    ensures r[0].key == Min(months) && r[|r| - 1].key == Max(months)
    ensures r[0].size >= 1 && r[|r| - 1].size >= 1
    ensures forall k :: 0 <= k < |r| ==> r[k].key == r[0].key + k
    ensures forall m :: m in months ==> m in Keys(r)
  {
    var lo, hi := Min(months), Max(months);
    assert r[0].key == d[0] == lo;
    assert r[|r| - 1].key == d[|d| - 1] == hi;
    assert r[0].size == Count(months, lo);
    assert r[|r| - 1].size == Count(months, hi);
    forall m | m in months ensures m in Keys(r) {
      assert m == d[m - lo];
    }
  }

  /** The monthly counts add up to the number of dates. */
  lemma MonthlyCountsTotal(months: seq<int>)
    ensures SumSizes(MonthlyCounts(months)) == |months|
  {
    if months != [] {
      var d := Range(Min(months), Max(months) + 1);
      assert forall m :: m in months ==> m == d[m - Min(months)];
      TalliesCoverAll(months, d);
    }
  }

  /** The counts start at the month of the earliest known date and end at
      the month of the latest one. */
  lemma EndMonths(cells: seq<Cell>, first: int, last: int)
    requires Dated(cells) && 0 <= first < |cells| && 0 <= last < |cells|
    requires cells[first].Timestamp? && cells[last].Timestamp?
    requires forall i :: 0 <= i < |cells| && cells[i].Timestamp? ==>
      !Before(cells[i].date, cells[first].date) && !Before(cells[last].date, cells[i].date)
    ensures var r := MonthlyCounts(Months(cells));
      r != [] && r[0].key == MonthIndex(cells[first].date) && r[|r| - 1].key == MonthIndex(cells[last].date)
  {
    var months := Months(cells);
    var lo, hi := MonthIndex(cells[first].date), MonthIndex(cells[last].date);
    forall m | m in months ensures lo <= m <= hi {
      var i :| 0 <= i < |cells| && cells[i].Timestamp? && MonthIndex(cells[i].date) == m;
      MonthIndexMonotone(cells[first].date, cells[i].date);
      MonthIndexMonotone(cells[i].date, cells[last].date);
    }
    assert lo in months && hi in months;
  }

  /** `df.set_index("admission_date").resample("M").size()`: one count per
      month from the earliest month to the latest, in order; a frame without
      the column is refused with the source's `ValueError`, and a column
      holding anything other than dates cannot be resampled. */
  function AdmissionsOverTime(t: Table): (r: Result<seq<Tally<int>>>)
    requires WellFormed(t)
    ensures Admission !in t.columns ==> r == Err(ValueError("admission_date column required"))
    ensures Admission in t.columns ==>
      (r.Err? <==> !Dated(Column(t, Admission))) && (r.Err? ==> r.error == TypeError(Admission))
    ensures r.Ok? ==> Admission in t.columns && Dated(Column(t, Admission))
    ensures r.Ok? ==> r.value == MonthlyCounts(Months(Column(t, Admission)))
  {
    if Admission !in t.columns then Err(ValueError("admission_date column required"))
    else
      var cells := Column(t, Admission);
      if !Dated(cells) then Err(TypeError(Admission))
      else Ok(MonthlyCounts(Months(cells)))
  }

  /** Every admission with a known date is counted in exactly one month. */
  lemma AdmissionsTotal(t: Table)
    requires WellFormed(t) && AdmissionsOverTime(t).Ok?
    ensures SumSizes(AdmissionsOverTime(t).value) == |t.rows| - Count(Column(t, Admission), Missing)
  {
    MonthlyCountsTotal(Months(Column(t, Admission)));
  }

  /** After `clean_data` the admission dates are timestamps or missing, so
      the monthly counts never fail when the column is there. */
  lemma CleanedAdmissions(u: Table)
    requires Prepared(u) && Admission in u.columns
    ensures AdmissionsOverTime(u).Ok?
  {
    FixOfNames();
    var j := IndexOf(u.columns, Admission);
    forall k | 0 <= k < |u.rows| ensures Column(u, Admission)[k] == Missing || Column(u, Admission)[k].Timestamp? {
      assert CellSettled(u.columns[j], u.rows[k][j]);
    }
  }
}
