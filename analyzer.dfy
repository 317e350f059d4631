/** The `HealthAnalyzer` object: one mutable field holding the table. */
module Analyzer {
  import opened Frame
  import opened Cleaning

  class HealthAnalyzer {
    /** `self.df` */
    var df: Table

    /** `__init__` keeps its own copy of the caller's table. */
    constructor(data: Table)
      ensures df == data
    {
      df := data;
    }

    /** `clean_data()`: rewrites `df` step by step, in place. When the
        duplicate check raises its `KeyError`, steps 1 to 7 have already
        been applied to `df`; otherwise `df` becomes the returned table,
        which is cleaned and which a second call returns unchanged. */
    method CleanData(p: Coercions) returns (r: Result<Table>)
      requires Cleanable(df)
      modifies this
      ensures r == Clean(old(df), p)
      ensures df == if r.Ok? then r.value else Prepare(old(df), p)
      ensures r.Ok? ==> Cleaned(df) && Clean(df, p) == Ok(df)
      ensures r.Err? ==> r.error == KeyError(Admission) && Prepared(df)
      ensures var cols := Renamed(old(df)).columns;
        r.Err? <==> |old(df).rows| > 0 && PatientId in cols && Admission !in cols
    {
      ghost var t := df;
      df := NormalizeColumnNames(df);
      df := RenameAliases(df, AdmissionAliases, Admission);
      df := RenameAliases(df, DischargeAliases, Discharge);
      assert df == Renamed(t);
      df := FixColumn(df, Admission, p);
      df := FixColumn(df, Discharge, p);
      df := FixColumn(df, Outcome, p);
      df := FixColumn(df, Age, p);
      df := FixColumn(df, Satisfaction, p);
      df := AddStayLength(df);
      df := FixColumn(df, Department, p);
      df := FixColumn(df, Gender, p);
      assert df == Prepare(t, p) by {
        StepsAreConvert(Renamed(t), p);
      }
      PrepareEstablishes(t, p);
      CleanFails(t, p);
      r := DropDuplicates(df);
      if r.Ok? {
        df := r.value;
        CleanEstablishes(t, p);
        CleanedFixpoint(df, p);
      }
    }
  }

  /** The statements of `CleanData` between the renames and the duplicate
      check are steps 3 to 7. */
  lemma StepsAreConvert(t2: Table, p: Coercions)
    requires WellFormed(t2)
    ensures var t5 := FixColumn(FixColumn(FixColumn(FixColumn(FixColumn(t2,
          Admission, p), Discharge, p), Outcome, p), Age, p), Satisfaction, p);
      Convert(t2, p) == FixColumn(FixColumn(AddStayLength(t5), Department, p), Gender, p)
  {
    var s1 := FixColumn(t2, Admission, p);
    var s2 := FixColumn(s1, Discharge, p);
    var s3 := FixColumn(s2, Outcome, p);
    var s4 := FixColumn(s3, Age, p);
    var s5 := FixColumn(s4, Satisfaction, p);
    assert EarlyFixes[1..] == [Discharge, Outcome, Age, Satisfaction];
    assert EarlyFixes[1..][1..] == [Outcome, Age, Satisfaction];
    assert EarlyFixes[1..][1..][1..] == [Age, Satisfaction];
    assert EarlyFixes[1..][1..][1..][1..] == [Satisfaction];
    assert FixColumns(s5, [], p) == s5;
    assert FixColumns(s4, [Satisfaction], p) == s5;
    assert FixColumns(s3, [Age, Satisfaction], p) == s5;
    assert FixColumns(s2, [Outcome, Age, Satisfaction], p) == s5;
    assert FixColumns(s1, [Discharge, Outcome, Age, Satisfaction], p) == s5;
    assert FixColumns(t2, EarlyFixes, p) == s5;
    var s6 := AddStayLength(s5);
    var s7 := FixColumn(s6, Department, p);
    assert LateFixes[1..] == [Gender];
    assert FixColumns(s7, [Gender], p) == FixColumn(s7, Gender, p);
    assert FixColumns(s6, LateFixes, p) == FixColumn(s7, Gender, p);
  }
}
