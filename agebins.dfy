/** The data behind `plot_outcomes_by_age_hist`: the rows with a known age
    and outcome, each with its age bin `(age // width).astype(int) * width`.
    The chart drawn from them is not modelled. */
module AgeBins {
  import opened Seqs
  import opened Frame
  import opened Cleaning

  /** `(age // width) * width` with Python's flooring division, as an
      integer: the multiple of `width` at or below the age (at or above it
      for a negative width). */
  function AgeBin(age: real, width: int): (bin: int)
    requires width != 0
    ensures bin % width == 0
    ensures width > 0 ==> bin as real <= age < (bin + width) as real
    ensures width < 0 ==> (bin + width) as real < age <= bin as real
  {
    var q := (age / width as real).Floor;
    BinBounds(age, width, q);
    q * width
  }

  lemma BinBounds(age: real, width: int, q: int)
    requires width != 0 && q == (age / width as real).Floor
    ensures (q * width) % width == 0
    ensures width > 0 ==> (q * width) as real <= age < (q * width + width) as real
    ensures width < 0 ==> (q * width + width) as real < age <= (q * width) as real
  {
    MultipleMod(q, width);
    CastMul(q, width);
    RealBin(age, width as real, q as real);
  }

  lemma CastMul(q: int, w: int)
    ensures (q * w) as real == q as real * w as real
    ensures (q * w + w) as real == (q as real + 1.0) * w as real
  {
    if q >= 0 {
      CastMulNat(q, w);
    } else {
      CastMulNat(-q, w);
      assert (-q) * w == -(q * w);
      assert (-q) as real * w as real == -(q as real * w as real);
    }
  }

  /** Converting a product to a real is the product of the conversions. */
  lemma {:induction false} CastMulNat(q: nat, w: int)
    ensures (q * w) as real == q as real * w as real
  {
    if q > 0 {
      CastMulNat(q - 1, w);
      assert q * w == (q - 1) * w + w;
      assert q as real * w as real == (q - 1) as real * w as real + w as real;
    }
  }

  /** `q = floor(age / w)` puts `age` between `q * w` and `(q + 1) * w`. */
  lemma RealBin(age: real, w: real, q: real)
    requires w != 0.0 && q <= age / w < q + 1.0
    ensures w > 0.0 ==> q * w <= age < (q + 1.0) * w
    ensures w < 0.0 ==> (q + 1.0) * w < age <= q * w
  {
    if w > 0.0 {
      AtLeastPos(age, w, q);
      BelowPos(age, w, q + 1.0);
    } else {
      AtLeastNeg(age, w, q);
      BelowNeg(age, w, q + 1.0);
    }
  }

  /** Any multiple of a positive width whose bin holds the age is the age's
      bin: the bins of a positive width cover the line without overlap. */
  lemma AgeBinUnique(age: real, width: int, q: int)
    requires width > 0
    requires (q * width) as real <= age < (q * width + width) as real
    ensures AgeBin(age, width) == q * width
  {
    var w := width as real;
    CastMul(q, width);
    WithinPos(age, w, q as real);
    BelowWithinPos(age, w, q as real + 1.0);
    assert (age / w).Floor == q;
  }

  lemma MultipleMod(q: int, w: int)
    requires w != 0
    ensures (q * w) % w == 0
  {
    var d := (q * w) / w;
    var r := (q * w) % w;
    assert q * w == d * w + r;
    var e := q - d;
    assert r == e * w by {
      assert q * w - d * w == (q - d) * w;
    }
    MulAwayFromZero(e, w);
    if e != 0 {
      assert false;
    }
  }

  /** A non-zero multiple of `w` is at least as far from zero as `w`. */
  lemma MulAwayFromZero(e: int, w: int)
    ensures e >= 1 && w > 0 ==> e * w >= w
    ensures e >= 1 && w < 0 ==> e * w <= w
    ensures e <= -1 && w > 0 ==> e * w <= -w
    ensures e <= -1 && w < 0 ==> e * w >= -w
  {
    if e >= 1 {
      assert e * w == (e - 1) * w + w;
      if w > 0 {
        assert (e - 1) * w >= 0;
      } else if w < 0 {
        assert (e - 1) * w <= 0;
      }
    } else if e <= -1 {
      assert e * w == (e + 1) * w - w;
      if w > 0 {
        assert (e + 1) * w <= 0;
      } else if w < 0 {
        assert (e + 1) * w >= 0;
      }
    }
  }

  lemma AtLeastPos(a: real, w: real, q: real)
    requires w > 0.0 && q <= a / w
    ensures q * w <= a
  {
  }

  lemma BelowPos(a: real, w: real, r: real)
    requires w > 0.0 && a / w < r
    ensures a < r * w
  {
  }

  lemma AtLeastNeg(a: real, w: real, q: real)
    requires w < 0.0 && q <= a / w
    ensures a <= q * w
  {
  }

  lemma BelowNeg(a: real, w: real, r: real)
    requires w < 0.0 && a / w < r
    ensures r * w < a
  {
  }

  lemma WithinPos(a: real, w: real, q: real)
    requires w > 0.0 && q * w <= a
    ensures q <= a / w
  {
  }

  lemma BelowWithinPos(a: real, w: real, r: real)
    requires w > 0.0 && a < r * w
    ensures a / w < r
  {
  }

  /** Row positions below `n` where both cells are known
      (`dropna(subset=["age", "outcome"])`), in order. */
  function KeptRows(ages: seq<Cell>, outcomes: seq<Cell>, n: nat): (idx: seq<nat>)
    requires n <= |ages| == |outcomes|
    ensures Increasing(idx)
    ensures forall i :: 0 <= i < |idx| ==> idx[i] < n
    ensures forall k :: 0 <= k < n ==> (k in idx <==> ages[k] != Missing && outcomes[k] != Missing)
  {
    if n == 0 then []
    else
      var rest := KeptRows(ages, outcomes, n - 1);
      rest + (if ages[n - 1] != Missing && outcomes[n - 1] != Missing then [n - 1] else [])
  }

  /** The rows `dropna(subset=["age", "outcome"])` keeps. */
  function Kept(t: Table): seq<nat>
    requires WellFormed(t) && Age in t.columns && Outcome in t.columns
  {
    KeptRows(Column(t, Age), Column(t, Outcome), |t.rows|)
  }

  /** Every kept row's age is a number. */
  predicate AgesNumeric(t: Table)
    requires WellFormed(t) && Age in t.columns && Outcome in t.columns
  {
    forall i :: 0 <= i < |Kept(t)| ==> Column(t, Age)[Kept(t)[i]].Number?
  }

  /** No row is kept exactly when every row lacks its age or its outcome. */
  lemma {:induction false} KeptRowsEmpty(ages: seq<Cell>, outcomes: seq<Cell>, n: nat)
    requires n <= |ages| == |outcomes|
    ensures KeptRows(ages, outcomes, n) == [] <==>
      forall k :: 0 <= k < n ==> ages[k] == Missing || outcomes[k] == Missing
  {
    if n > 0 {
      KeptRowsEmpty(ages, outcomes, n - 1);
    }
  }

  /** One row of the chart's data: its bin, the age and the outcome. */
  datatype AgePoint = AgePoint(bin: int, age: real, outcome: Cell)

  /** `plot_outcomes_by_age_hist(age_bin_width)`: nothing (`None`) without an
      `age` column or when no row has both an age and an outcome; otherwise
      one point per such row, in row order. Without an `outcome` column
      `dropna` fails; an age that is not a number cannot be divided; a zero
      width gives non-finite bins that cannot be cast to `int`. */
  function PlotOutcomesByAgeHist(t: Table, width: int): (r: Result<Option<seq<AgePoint>>>)
    requires WellFormed(t)
    ensures Age !in t.columns ==> r == Ok(None)
    ensures Age in t.columns && Outcome !in t.columns ==> r == Err(KeyError(Outcome))
    ensures Age in t.columns && Outcome in t.columns ==>
      (r == Ok(None) <==> Kept(t) == []) &&
      (r.Err? <==> Kept(t) != [] && (!AgesNumeric(t) || width == 0)) &&
      (r.Err? ==> r.error == if !AgesNumeric(t) then TypeError(Age) else IntCastError)
    ensures r.Ok? && r.value.Some? ==> Age in t.columns && Outcome in t.columns && width != 0
    ensures r.Ok? && r.value.Some? ==> |r.value.value| == |Kept(t)|
    ensures r.Ok? && r.value.Some? ==> forall i :: 0 <= i < |Kept(t)| ==>
      Column(t, Age)[Kept(t)[i]] == Number(r.value.value[i].age) &&
      r.value.value[i].outcome == Column(t, Outcome)[Kept(t)[i]] &&
      r.value.value[i].bin == AgeBin(r.value.value[i].age, width)
  {
    if Age !in t.columns then Ok(None)
    else if Outcome !in t.columns then Err(KeyError(Outcome))
    else
      var ages := Column(t, Age);
      var outcomes := Column(t, Outcome);
      var idx := Kept(t);
      if idx == [] then Ok(None)
      else if !AgesNumeric(t) then Err(TypeError(Age))
      else if width == 0 then Err(IntCastError)
      else
        Ok(Some(seq(|idx|, i requires 0 <= i < |idx| =>
          AgePoint(AgeBin(ages[idx[i]].x, width), ages[idx[i]].x, outcomes[idx[i]]))))
  }

  /** Every row with a known age and outcome is plotted once, in its bin. */
  lemma HistCoversRows(t: Table, width: int, k: int)
    requires WellFormed(t) && Age in t.columns && Outcome in t.columns
    requires PlotOutcomesByAgeHist(t, width).Ok? && PlotOutcomesByAgeHist(t, width).value.Some?
    requires 0 <= k < |t.rows| && Column(t, Age)[k] != Missing && Column(t, Outcome)[k] != Missing
    ensures exists i ::
              0 <= i < |PlotOutcomesByAgeHist(t, width).value.value| &&
              var pt := PlotOutcomesByAgeHist(t, width).value.value[i];
              Column(t, Age)[k] == Number(pt.age) && pt.outcome == Column(t, Outcome)[k] &&
              (width > 0 ==> pt.bin as real <= pt.age < (pt.bin + width) as real)
  {
    var idx := Kept(t);
    var i :| 0 <= i < |idx| && idx[i] == k;
    var pt := PlotOutcomesByAgeHist(t, width).value.value[i];
    assert Column(t, Age)[k] == Number(pt.age);
  }

  /** After `clean_data` every age is a number or missing and every outcome
      is known, so with a non-zero width the chart data never fails, and it
      is empty exactly when no age is known. */
  lemma CleanedAgeHist(u: Table, width: int)
    requires Prepared(u) && Age in u.columns && Outcome in u.columns && width != 0
    ensures PlotOutcomesByAgeHist(u, width).Ok?
    ensures PlotOutcomesByAgeHist(u, width).value.None? <==>
      forall k :: 0 <= k < |u.rows| ==> Column(u, Age)[k] == Missing
  {
    FixOfNames();
    var ages := Column(u, Age);
    var outcomes := Column(u, Outcome);
    var a := IndexOf(u.columns, Age);
    var o := IndexOf(u.columns, Outcome);
    forall k | 0 <= k < |u.rows| ensures (ages[k] == Missing || ages[k].Number?) && outcomes[k] != Missing {
      assert CellSettled(u.columns[a], u.rows[k][a]);
      assert CellSettled(u.columns[o], u.rows[k][o]);
    }
    var idx := Kept(u);
    if forall k :: 0 <= k < |u.rows| ==> ages[k] == Missing {
      KeptRowsEmpty(ages, outcomes, |u.rows|);
    } else {
      var k :| 0 <= k < |u.rows| && ages[k] != Missing;
      assert k in idx;
    }
  }
}
