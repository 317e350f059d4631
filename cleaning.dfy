/** `HealthAnalyzer.clean_data`: the fixed sequence of table transforms, one
    function per step, each a no-op when its column is absent. The steps, in
    source order: 1 normalize the names, 2 rename the date aliases, 3 parse
    the dates, 4 normalize the outcomes, 5 make age and satisfaction
    numeric, 6 add `length_of_stay`, 7 fill department and gender,
    8 drop duplicates. */
module Cleaning {
  import opened Calendar
  import opened Text
  import opened Seqs
  import opened Frame

  /** What pandas supplies to the cleaning pass and this model leaves
      abstract: `to_datetime` of one text or numeric cell, `to_numeric` of one
      text cell, and `str()` of a float and of a Timestamp. */
  datatype Coercions = Coercions(
    dateOfText: string -> Option<Date>,
    dateOfNumber: real -> Option<Date>,
    numberOfText: string -> Option<real>,
    showNumber: real -> string,
    showDate: Date -> string)

  const Admission: string := "admission_date"
  const Discharge: string := "discharge_date"
  const Outcome: string := "outcome"
  const Age: string := "age"
  const Satisfaction: string := "satisfaction"
  const LengthOfStay: string := "length_of_stay"
  const Department: string := "department"
  const Gender: string := "gender"
  const PatientId: string := "patient_id"

  /** Tried in this order; the first one present is renamed. */
  const AdmissionAliases: seq<string> := [Admission, "admit_date", "date_admitted"]
  const DischargeAliases: seq<string> := [Discharge, "date_discharged"]

  // ---------------------------------------------------------------- cells

  /** `pd.to_datetime(..., errors="coerce")` on one cell: unparseable values
      become missing (NaT). */
  function ToDatetime(c: Cell, p: Coercions): (r: Cell)
    ensures r == Missing || r.Timestamp?
    ensures c == Missing || c.Timestamp? ==> r == c
    ensures c.Text? ==> r == if p.dateOfText(c.s).Some? then Timestamp(p.dateOfText(c.s).value) else Missing
    ensures c.Number? ==> r == if p.dateOfNumber(c.x).Some? then Timestamp(p.dateOfNumber(c.x).value) else Missing
  {
    match c
    case Missing => Missing
    case Timestamp(_) => c
    case Text(s) => (match p.dateOfText(s) case Some(d) => Timestamp(d) case None => Missing)
    case Number(x) => (match p.dateOfNumber(x) case Some(d) => Timestamp(d) case None => Missing)
  }

  /** `pd.to_numeric(..., errors="coerce")` on one cell. */
  function ToNumeric(c: Cell, p: Coercions): (r: Cell)
    ensures r == Missing || r.Number?
    ensures c == Missing || c.Number? ==> r == c
    ensures c.Text? ==> r == if p.numberOfText(c.s).Some? then Number(p.numberOfText(c.s).value) else Missing
  {
    match c
    case Missing => Missing
    case Number(_) => c
    case Text(s) => (match p.numberOfText(s) case Some(x) => Number(x) case None => Missing)
    case Timestamp(_) => Missing
  }

  /** `.astype(str)` on one cell: a missing value becomes the text "nan", as
      NaN does. */
  function AsText(c: Cell, p: Coercions): string {
    match c
    case Missing => "nan"
    case Text(s) => s
    case Number(x) => p.showNumber(x)
    case Timestamp(d) => p.showDate(d)
  }

  /** The per-column transforms of `clean_data`. */
  datatype CellFix = ParseDate | ParseNumber | LowerStrip | FillUnknown

  function Fix(f: CellFix, c: Cell, p: Coercions): Cell {
    match f
    case ParseDate => ToDatetime(c, p)
    case ParseNumber => ToNumeric(c, p)
    case LowerStrip => Text(NormalizeLabel(AsText(c, p)))
    case FillUnknown => if c == Missing then Text("Unknown") else c
  }

  /** The cells a transform leaves as they are. */
  predicate Settles(f: CellFix, c: Cell) {
    match f
    case ParseDate => c == Missing || c.Timestamp?
    case ParseNumber => c == Missing || c.Number?
    case LowerStrip => c.Text? && IsNormal(c.s)
    case FillUnknown => c != Missing
  }

  /** Every transform lands in its own fixed points, and does nothing there. */
  lemma FixSettles(f: CellFix, c: Cell, p: Coercions)
    ensures Settles(f, Fix(f, c, p))
    ensures Settles(f, c) ==> Fix(f, c, p) == c
  {
    if f == LowerStrip {
      NormalizeLabelIsNormal(AsText(c, p));
      if Settles(f, c) {
        NormalizeLabelFixesNormal(c.s);
      }
    }
  }

  /** Which transform the cleaning pass applies to the column of that name. */
  function FixOf(name: string): Option<CellFix> {
    if name == Admission || name == Discharge then Some(ParseDate)
    else if name == Outcome then Some(LowerStrip)
    else if name == Age || name == Satisfaction then Some(ParseNumber)
    else if name == Department || name == Gender then Some(FillUnknown)
    else None
  }

  function FixCell(name: string, c: Cell, p: Coercions): Cell {
    match FixOf(name)
    case None => c
    case Some(f) => Fix(f, c, p)
  }

  predicate CellSettled(name: string, c: Cell) {
    match FixOf(name)
    case None => true
    case Some(f) => Settles(f, c)
  }

  /** `(discharge_date - admission_date).dt.days`: whole days, negative when
      discharge comes first, missing unless both dates are known. */
  function StayLength(admitted: Cell, discharged: Cell): Cell {
    if admitted.Timestamp? && discharged.Timestamp? then
      Number((DayNumber(discharged.date) - DayNumber(admitted.date)) as real)
    else Missing
  }

  /** The sign of a length of stay is the order of the two dates; it is not
      clamped at zero. */
  lemma StayLengthSign(a: Date, d: Date)
    ensures StayLength(Timestamp(a), Timestamp(d)).x < 0.0 <==> Before(d, a)
    ensures StayLength(Timestamp(a), Timestamp(d)).x == 0.0 <==> a == d
    ensures StayLength(Timestamp(a), Timestamp(d)).x > 0.0 <==> Before(a, d)
  {
    DayNumberOrder(a, d);
    DayNumberOrder(d, a);
  }

  // ---------------------------------------------------------------- column names

  /** Step 1: `df.columns = [c.strip().lower() for c in df.columns]`. */
  function NormalizeColumnNames(t: Table): (u: Table)
    ensures u.rows == t.rows && |u.columns| == |t.columns|
    ensures forall j :: 0 <= j < |u.columns| ==> u.columns[j] == NormalizeName(t.columns[j])
    ensures forall j :: 0 <= j < |u.columns| ==> IsNormal(u.columns[j])
  {
    var names := seq(|t.columns|, j requires 0 <= j < |t.columns| => NormalizeName(t.columns[j]));
    forall j | 0 <= j < |names| ensures IsNormal(names[j]) {
      NormalizeNameIsNormal(t.columns[j]);
    }
    t.(columns := names)
  }

  /** `df.rename(columns={from: to})`: every column called `from` is renamed. */
  function Rename(columns: seq<string>, from: string, to: string): (r: seq<string>)
    ensures |r| == |columns|
    ensures forall j :: 0 <= j < |r| ==> r[j] == if columns[j] == from then to else columns[j]
  {
    seq(|columns|, j requires 0 <= j < |columns| => if columns[j] == from then to else columns[j])
  }

  /** Step 2: the loop over `aliases` that renames the first alias present to
      `canonical` and stops; later aliases are left as they are. */
  function RenameFirst(columns: seq<string>, aliases: seq<string>, canonical: string): (r: seq<string>)
    ensures |r| == |columns|
    ensures (forall a :: a in aliases ==> a !in columns) ==> r == columns
    ensures forall k ::
      (0 <= k < |aliases| && aliases[k] in columns && forall i :: 0 <= i < k ==> aliases[i] !in columns) ==>
        r == Rename(columns, aliases[k], canonical)
  {
    if aliases == [] then columns
    else if aliases[0] in columns then Rename(columns, aliases[0], canonical)
    else
      var r := RenameFirst(columns, aliases[1..], canonical);
      assert forall k :: 1 <= k < |aliases| ==> aliases[k] == aliases[1..][k - 1];
      r
  }

  function RenameAliases(t: Table, aliases: seq<string>, canonical: string): Table {
    t.(columns := RenameFirst(t.columns, aliases, canonical))
  }

  // ---------------------------------------------------------------- columns

  function MapRow(columns: seq<string>, row: Row, name: string, f: CellFix, p: Coercions): (r: Row)
    requires |row| == |columns|
    ensures |r| == |row|
    ensures forall j :: 0 <= j < |r| ==> r[j] == if columns[j] == name then Fix(f, row[j], p) else row[j]
  {
    seq(|row|, j requires 0 <= j < |row| => if columns[j] == name then Fix(f, row[j], p) else row[j])
  }

  /** `df[name] = <transform of df[name]>`, skipped when there is no such column. */
  function MapColumn(t: Table, name: string, f: CellFix, p: Coercions): (u: Table)
    requires WellFormed(t)
    ensures WellFormed(u) && u.columns == t.columns && |u.rows| == |t.rows|
    ensures forall k, m :: 0 <= k < |t.rows| && m in t.columns ==>
      Get(u.columns, u.rows[k], m) == if m == name then Fix(f, Get(t.columns, t.rows[k], m), p) else Get(t.columns, t.rows[k], m)
  {
    var rows := seq(|t.rows|, k requires 0 <= k < |t.rows| => MapRow(t.columns, t.rows[k], name, f, p));
    t.(rows := rows)
  }

  /** `df[name] = cells`: overwrites the column, or appends it when absent. */
  function PutColumn(t: Table, name: string, cells: seq<Cell>): (u: Table)
    requires WellFormed(t) && |cells| == |t.rows|
    ensures WellFormed(u) && |u.rows| == |t.rows|
    ensures u.columns == if name in t.columns then t.columns else t.columns + [name]
    ensures forall k, m :: 0 <= k < |t.rows| && m in t.columns && m != name ==>
      Get(u.columns, u.rows[k], m) == Get(t.columns, t.rows[k], m)
    ensures forall k :: 0 <= k < |t.rows| ==> Get(u.columns, u.rows[k], name) == cells[k]
  {
    if name in t.columns then
      var rows := seq(|t.rows|, k requires 0 <= k < |t.rows| =>
        seq(|t.columns|, j requires 0 <= j < |t.columns| => if t.columns[j] == name then cells[k] else t.rows[k][j]));
      t.(rows := rows)
    else
      var cols := t.columns + [name];
      var rows := seq(|t.rows|, k requires 0 <= k < |t.rows| => t.rows[k] + [cells[k]]);
      assert forall m :: m in t.columns ==> IndexOf(cols, m) == IndexOf(t.columns, m) by {
        forall m | m in t.columns ensures IndexOf(cols, m) == IndexOf(t.columns, m) {
          IndexOfPrefix(t.columns, name, m);
        }
      }
      assert IndexOf(cols, name) == |t.columns| by {
        IndexOfLast(t.columns, name);
      }
      Table(cols, rows)
  }

  lemma {:induction false} IndexOfPrefix(s: seq<string>, y: string, x: string)
    requires x in s
    ensures IndexOf(s + [y], x) == IndexOf(s, x)
  {
    if s[0] != x {
      assert (s + [y])[1..] == s[1..] + [y];
      IndexOfPrefix(s[1..], y, x);
    }
  }

  lemma {:induction false} IndexOfLast(s: seq<string>, x: string)
    requires x !in s
    ensures IndexOf(s + [x], x) == |s|
  {
    if s != [] {
      assert (s + [x])[1..] == s[1..] + [x];
      IndexOfLast(s[1..], x);
    }
  }

  function StayLengths(t: Table): (cells: seq<Cell>)
    requires WellFormed(t) && Admission in t.columns && Discharge in t.columns
    ensures |cells| == |t.rows|
  {
    seq(|t.rows|, k requires 0 <= k < |t.rows| =>
      StayLength(Get(t.columns, t.rows[k], Admission), Get(t.columns, t.rows[k], Discharge)))
  }

  /** Step 6: `length_of_stay`, only when both date columns exist. */
  function AddStayLength(t: Table): (u: Table)
    requires WellFormed(t)
    ensures WellFormed(u) && |u.rows| == |t.rows|
  {
    if Admission in t.columns && Discharge in t.columns then PutColumn(t, LengthOfStay, StayLengths(t))
    else t
  }

  // ---------------------------------------------------------------- duplicates

  /** The (`patient_id`, `admission_date`) pair of every row. */
  function VisitKeys(t: Table): (keys: seq<(Cell, Cell)>)
    requires WellFormed(t) && PatientId in t.columns && Admission in t.columns
    ensures |keys| == |t.rows|
  {
    seq(|t.rows|, k requires 0 <= k < |t.rows| =>
      (Get(t.columns, t.rows[k], PatientId), Get(t.columns, t.rows[k], Admission)))
  }

  /** An empty frame: no rows or no columns, as pandas' `DataFrame.empty`. */
  predicate IsEmpty(t: Table) {
    |t.rows| == 0 || |t.columns| == 0
  }

  /** Step 8: `drop_duplicates(subset=["patient_id", "admission_date"])` when
      there is a `patient_id` column (a `KeyError` without `admission_date`),
      otherwise `drop_duplicates()` over whole rows; first occurrences win.
      pandas returns an empty frame unchanged before it looks at the subset,
      so an empty frame never raises. */
  function DropDuplicates(t: Table): (r: Result<Table>)
    requires WellFormed(t)
    ensures r.Err? <==> !IsEmpty(t) && PatientId in t.columns && Admission !in t.columns
    ensures r.Ok? ==> r.value.columns == t.columns && WellFormed(r.value)
    ensures IsEmpty(t) ==> r == Ok(t)
    ensures r.Ok? && PatientId in t.columns && Admission in t.columns ==>
      KeptFirst(t.rows, VisitKeys(t), r.value.rows, FirstIndices(VisitKeys(t)))
    ensures r.Ok? && !IsEmpty(t) && PatientId !in t.columns ==>
      KeptFirst(t.rows, t.rows, r.value.rows, FirstIndices(t.rows))
  {
    if IsEmpty(t) then
      assert PatientId in t.columns && Admission in t.columns ==>
        KeptFirst(t.rows, VisitKeys(t), t.rows, FirstIndices(VisitKeys(t)));
      Ok(t)
    else if PatientId in t.columns then
      if Admission !in t.columns then Err(KeyError(Admission))
      else
        var kept := KeepFirst(t.rows, VisitKeys(t));
        assert forall k :: 0 <= k < |kept| ==> kept[k] in t.rows;
        Ok(t.(rows := kept))
    else
      var kept := KeepFirst(t.rows, t.rows);
      assert forall k :: 0 <= k < |kept| ==> kept[k] in t.rows;
      Ok(t.(rows := kept))
  }

  // ---------------------------------------------------------------- the pass

  /** Steps 1 and 2: the header after normalizing and renaming. */
  function Renamed(t: Table): (u: Table)
    ensures u.rows == t.rows && |u.columns| == |t.columns|
  {
    var t1 := NormalizeColumnNames(t);
    var t2 := RenameAliases(t1, AdmissionAliases, Admission);
    RenameAliases(t2, DischargeAliases, Discharge)
  }

  /** The names the cleaning pass can handle: after normalization no two
      columns share a name (pandas would otherwise return several columns
      for one name). */
  predicate Cleanable(t: Table) {
    WellFormed(t) && NoDups(NormalizeColumnNames(t).columns)
  }

  /** Steps 3 to 5 and step 7 in source order: the date columns, the
      outcome, age and satisfaction; then the department and gender. */
  const EarlyFixes: seq<string> := [Admission, Discharge, Outcome, Age, Satisfaction]
  const LateFixes: seq<string> := [Department, Gender]

  /** One `if name in df.columns: df[name] = ...` step. */
  function FixColumn(t: Table, name: string, p: Coercions): (u: Table)
    requires WellFormed(t)
    ensures WellFormed(u) && u.columns == t.columns && |u.rows| == |t.rows|
  {
    match FixOf(name)
    case None => t
    case Some(f) => MapColumn(t, name, f, p)
  }

  /** The steps for `names`, one after the other. */
  function FixColumns(t: Table, names: seq<string>, p: Coercions): (u: Table)
    requires WellFormed(t)
    ensures WellFormed(u) && u.columns == t.columns && |u.rows| == |t.rows|
    decreases |names|
  {
    if names == [] then t else FixColumns(FixColumn(t, names[0], p), names[1..], p)
  }

  /** Steps 3 to 7, in source order. */
  function Convert(t2: Table, p: Coercions): (u: Table)
    requires WellFormed(t2)
    ensures WellFormed(u) && |u.rows| == |t2.rows|
  {
    FixColumns(AddStayLength(FixColumns(t2, EarlyFixes, p)), LateFixes, p)
  }

  /** Everything `clean_data` does to `self.df` in place before dropping
      duplicates. */
  function Prepare(t: Table, p: Coercions): (u: Table)
    requires WellFormed(t)
    ensures WellFormed(u) && |u.rows| == |t.rows|
  {
    Convert(Renamed(t), p)
  }

  /** `clean_data()`: the table it returns, or the exception it raises. */
  function Clean(t: Table, p: Coercions): Result<Table>
    requires WellFormed(t)
  {
    DropDuplicates(Prepare(t, p))
  }

  // ---------------------------------------------------------------- header facts

  lemma CanonicalNamesNormal()
    ensures IsNormal(Admission) && IsNormal(Discharge) && IsNormal(LengthOfStay)
  {
  }

  /** After the renames, each canonical date column is present or none of
      its aliases is. */
  predicate AliasesSettled(columns: seq<string>) {
    (Admission in columns || ("admit_date" !in columns && "date_admitted" !in columns)) &&
    (Discharge in columns || "date_discharged" !in columns)
  }

  lemma RenameDistinct(columns: seq<string>, from: string, to: string)
    requires NoDups(columns) && (to !in columns || from == to)
    ensures NoDups(Rename(columns, from, to))
  {
    var r := Rename(columns, from, to);
    forall i, j | 0 <= i < j < |r| ensures r[i] != r[j] {
      if columns[i] == from && columns[j] != from {
        assert columns[j] != to || from == to;
      } else if columns[i] != from && columns[j] == from {
        assert columns[i] != to || from == to;
      }
    }
  }

  /** Renaming the first alias present keeps the names distinct, as long as
      the canonical name is either absent or the first alias itself. */
  lemma {:induction false} RenameFirstDistinct(columns: seq<string>, aliases: seq<string>, canonical: string)
    requires NoDups(columns)
    requires canonical !in columns || (aliases != [] && aliases[0] == canonical)
    ensures NoDups(RenameFirst(columns, aliases, canonical))
  {
    if aliases != [] {
      if aliases[0] in columns {
        RenameDistinct(columns, aliases[0], canonical);
      } else {
        RenameFirstDistinct(columns, aliases[1..], canonical);
      }
    }
  }

  /** Names other than the canonical one and the aliases keep their presence;
      the canonical name is present afterwards when any alias was before. */
  lemma RenameFirstMembers(columns: seq<string>, aliases: seq<string>, canonical: string, x: string)
    ensures x != canonical && x !in aliases ==> (x in RenameFirst(columns, aliases, canonical) <==> x in columns)
    ensures (exists i :: 0 <= i < |aliases| && aliases[i] in columns) ==> canonical in RenameFirst(columns, aliases, canonical)
  {
    if x != canonical && x !in aliases {
      RenameFirstOthers(columns, aliases, canonical, x);
    }
    if exists i :: 0 <= i < |aliases| && aliases[i] in columns {
      var i :| 0 <= i < |aliases| && aliases[i] in columns;
      RenameFirstCanonical(columns, aliases, canonical, i);
    }
  }

  lemma {:induction false} RenameFirstOthers(columns: seq<string>, aliases: seq<string>, canonical: string, x: string)
    requires x != canonical && x !in aliases
    ensures x in RenameFirst(columns, aliases, canonical) <==> x in columns
  {
    if aliases != [] {
      if aliases[0] in columns {
        var r := Rename(columns, aliases[0], canonical);
        if x in columns {
          var i := IndexOf(columns, x);
          assert r[i] == x;
        }
      } else {
        assert x !in aliases[1..];
        RenameFirstOthers(columns, aliases[1..], canonical, x);
      }
    }
  }

  lemma {:induction false} RenameFirstCanonical(columns: seq<string>, aliases: seq<string>, canonical: string, i: int)
    requires 0 <= i < |aliases| && aliases[i] in columns
    ensures canonical in RenameFirst(columns, aliases, canonical)
  {
    if aliases[0] in columns {
      var r := Rename(columns, aliases[0], canonical);
      var j := IndexOf(columns, aliases[0]);
      assert r[j] == canonical;
    } else {
      assert aliases[1..][i - 1] == aliases[i];
      RenameFirstCanonical(columns, aliases[1..], canonical, i - 1);
    }
  }

  lemma {:induction false} RenameFirstNormal(columns: seq<string>, aliases: seq<string>, canonical: string)
    requires IsNormal(canonical) && forall j :: 0 <= j < |columns| ==> IsNormal(columns[j])
    ensures var r := RenameFirst(columns, aliases, canonical);
      |r| == |columns| && forall j :: 0 <= j < |r| ==> IsNormal(r[j])
  {
    if aliases != [] {
      if aliases[0] in columns {
        var r := Rename(columns, aliases[0], canonical);
        forall j | 0 <= j < |r| ensures IsNormal(r[j]) {
        }
      } else {
        RenameFirstNormal(columns, aliases[1..], canonical);
      }
    }
  }

  /** Either the canonical name ends up present, or no alias was there and
      nothing changed. */
  lemma RenameFirstSettles(columns: seq<string>, aliases: seq<string>, canonical: string)
    ensures var r := RenameFirst(columns, aliases, canonical);
      canonical in r || (r == columns && forall i :: 0 <= i < |aliases| ==> aliases[i] !in columns)
  {
    RenameFirstMembers(columns, aliases, canonical, canonical);
  }

  /** The header after steps 1 and 2: normal, distinct, with the aliases
      resolved. */
  lemma RenamedColumns(t: Table)
    requires Cleanable(t)
    ensures var cols := Renamed(t).columns;
      NoDups(cols) && AliasesSettled(cols) &&
      forall j :: 0 <= j < |cols| ==> IsNormal(cols[j])
  {
    CanonicalNamesNormal();
    var c1 := NormalizeColumnNames(t).columns;
    var c2 := RenameFirst(c1, AdmissionAliases, Admission);
    var c3 := RenameFirst(c2, DischargeAliases, Discharge);
    assert c3 == Renamed(t).columns;
    RenameFirstNormal(c1, AdmissionAliases, Admission);
    RenameFirstNormal(c2, DischargeAliases, Discharge);
    RenameFirstDistinct(c1, AdmissionAliases, Admission);
    RenameFirstDistinct(c2, DischargeAliases, Discharge);
    RenamedAliasesSettled(c1);
  }

  lemma RenamedAliasesSettled(c1: seq<string>)
    ensures var c2 := RenameFirst(c1, AdmissionAliases, Admission);
      AliasesSettled(RenameFirst(c2, DischargeAliases, Discharge))
  {
    var c2 := RenameFirst(c1, AdmissionAliases, Admission);
    var c3 := RenameFirst(c2, DischargeAliases, Discharge);
    RenameFirstSettles(c1, AdmissionAliases, Admission);
    RenameFirstSettles(c2, DischargeAliases, Discharge);
    assert Admission !in DischargeAliases && "admit_date" !in DischargeAliases && "date_admitted" !in DischargeAliases;
    RenameFirstMembers(c2, DischargeAliases, Discharge, Admission);
    RenameFirstMembers(c2, DischargeAliases, Discharge, "admit_date");
    RenameFirstMembers(c2, DischargeAliases, Discharge, "date_admitted");
    if Admission !in c2 {
      assert AdmissionAliases[1] !in c1 && AdmissionAliases[2] !in c1;
    }
  }

  // ---------------------------------------------------------------- steps 3 to 7

  /** Steps 3 to 7 append `length_of_stay` exactly when both dates are
      present and it is not there already; no other column comes or goes. */
  lemma ConvertColumns(t2: Table, p: Coercions)
    requires WellFormed(t2)
    ensures Convert(t2, p).columns ==
      if Admission in t2.columns && Discharge in t2.columns && LengthOfStay !in t2.columns
      then t2.columns + [LengthOfStay] else t2.columns
  {
  }

  /** Each step rewrites its own column and no other. */
  lemma FixColumnGet(t: Table, name: string, p: Coercions, k: int, m: string)
    requires WellFormed(t) && 0 <= k < |t.rows| && m in t.columns
    ensures var u := FixColumn(t, name, p);
      Get(u.columns, u.rows[k], m) ==
        if m == name then FixCell(m, Get(t.columns, t.rows[k], m), p) else Get(t.columns, t.rows[k], m)
  {
    if FixOf(name).Some? {
      var f := FixOf(name).value;
      assert FixColumn(t, name, p) == MapColumn(t, name, f, p);
    }
  }

  /** After the steps for distinct `names`, each named column holds its
      transform of the original cell and every other column is untouched. */
  lemma {:induction false} FixColumnsGet(t: Table, names: seq<string>, p: Coercions, k: int, m: string)
    requires WellFormed(t) && NoDups(names) && 0 <= k < |t.rows| && m in t.columns
    ensures var u := FixColumns(t, names, p);
      Get(u.columns, u.rows[k], m) ==
        if m in names then FixCell(m, Get(t.columns, t.rows[k], m), p) else Get(t.columns, t.rows[k], m)
    decreases |names|
  {
    if names != [] {
      var t1 := FixColumn(t, names[0], p);
      FixColumnGet(t, names[0], p, k, m);
      assert NoDups(names[1..]) by {
        forall i, j | 0 <= i < j < |names[1..]| ensures names[1..][i] != names[1..][j] {
          assert names[1..][i] == names[i + 1] && names[1..][j] == names[j + 1];
        }
      }
      FixColumnsGet(t1, names[1..], p, k, m);
      assert m in names <==> m == names[0] || m in names[1..] by {
        assert names == [names[0]] + names[1..];
      }
      if m == names[0] {
        assert m !in names[1..] by {
          forall j | 0 <= j < |names[1..]| ensures names[1..][j] != m {
            assert names[1..][j] == names[j + 1];
          }
        }
      }
    }
  }

  /** Under `length_of_stay`, when both dates are present, steps 3 to 7
      leave the stay computed from the row's parsed dates. */
  lemma ConvertStay(t2: Table, p: Coercions, k: int)
    requires WellFormed(t2) && 0 <= k < |t2.rows|
    requires Admission in t2.columns && Discharge in t2.columns
    ensures var u := Convert(t2, p);
      LengthOfStay in u.columns && Admission in u.columns && Discharge in u.columns &&
      Get(u.columns, u.rows[k], LengthOfStay) ==
        StayLength(Get(u.columns, u.rows[k], Admission), Get(u.columns, u.rows[k], Discharge))
  {
    var t5 := FixColumns(t2, EarlyFixes, p);
    var t6 := AddStayLength(t5);
    StayColumnGet(t5, k);
    FixLists(LengthOfStay);
    FixColumnsGet(t6, LateFixes, p, k, LengthOfStay);
    FixColumnsGet(t6, LateFixes, p, k, Admission);
    FixColumnsGet(t6, LateFixes, p, k, Discharge);
  }

  /** Step 6 on a row: the stay from the row's dates, which stay as they were. */
  lemma StayColumnGet(t5: Table, k: int)
    requires WellFormed(t5) && 0 <= k < |t5.rows|
    requires Admission in t5.columns && Discharge in t5.columns
    ensures var t6 := AddStayLength(t5);
      LengthOfStay in t6.columns && Admission in t6.columns && Discharge in t6.columns &&
      Get(t6.columns, t6.rows[k], Admission) == Get(t5.columns, t5.rows[k], Admission) &&
      Get(t6.columns, t6.rows[k], Discharge) == Get(t5.columns, t5.rows[k], Discharge) &&
      Get(t6.columns, t6.rows[k], LengthOfStay) ==
        StayLength(Get(t5.columns, t5.rows[k], Admission), Get(t5.columns, t5.rows[k], Discharge))
  {
    assert AddStayLength(t5) == PutColumn(t5, LengthOfStay, StayLengths(t5));
  }

  /** Under any other name, steps 3 to 7 leave the column's own transform of
      the original cell. */
  lemma ConvertFix(t2: Table, p: Coercions, k: int, m: string)
    requires WellFormed(t2) && 0 <= k < |t2.rows| && m in t2.columns
    requires m != LengthOfStay || Admission !in t2.columns || Discharge !in t2.columns
    ensures var u := Convert(t2, p);
      m in u.columns && Get(u.columns, u.rows[k], m) == FixCell(m, Get(t2.columns, t2.rows[k], m), p)
  {
    var t5 := FixColumns(t2, EarlyFixes, p);
    var t6 := AddStayLength(t5);
    FixLists(m);
    FixColumnsGet(t2, EarlyFixes, p, k, m);
    AddStayLengthGet(t5, k, m);
    FixColumnsGet(t6, LateFixes, p, k, m);
  }

  /** The two lists of steps name every column with a transform, each once. */
  lemma FixLists(m: string)
    ensures NoDups(EarlyFixes) && NoDups(LateFixes)
    ensures !(m in EarlyFixes && m in LateFixes)
    ensures FixOf(m).Some? ==> m in EarlyFixes || m in LateFixes
  {
  }

  /** Adding `length_of_stay` leaves every other column as it was. */
  lemma AddStayLengthGet(t5: Table, k: int, m: string)
    requires WellFormed(t5) && 0 <= k < |t5.rows| && m in t5.columns
    requires m != LengthOfStay || Admission !in t5.columns || Discharge !in t5.columns
    ensures var t6 := AddStayLength(t5);
      m in t6.columns && Get(t6.columns, t6.rows[k], m) == Get(t5.columns, t5.rows[k], m)
  {
  }

  // ---------------------------------------------------------------- the cleaned form

  /** Every cell is a fixed point of its column's transform. */
  predicate CellsSettled(u: Table)
    requires WellFormed(u)
  {
    forall k, j :: 0 <= k < |u.rows| && 0 <= j < |u.columns| ==> CellSettled(u.columns[j], u.rows[k][j])
  }

  /** `length_of_stay` agrees with the two dates on every row whenever both
      date columns are present. */
  predicate StayConsistent(u: Table)
    requires WellFormed(u)
  {
    Admission in u.columns && Discharge in u.columns ==>
      LengthOfStay in u.columns &&
      forall k :: 0 <= k < |u.rows| ==>
        Get(u.columns, u.rows[k], LengthOfStay) ==
          StayLength(Get(u.columns, u.rows[k], Admission), Get(u.columns, u.rows[k], Discharge))
  }

  /** The shape `self.df` has after steps 1 to 7. */
  predicate Prepared(u: Table) {
    WellFormed(u) && NoDups(u.columns) &&
    (forall j :: 0 <= j < |u.columns| ==> IsNormal(u.columns[j])) &&
    AliasesSettled(u.columns) && CellsSettled(u) && StayConsistent(u)
  }

  /** No two rows share a visit key, or, without `patient_id`, no two rows
      are equal; an empty frame is left as it is. */
  predicate Deduplicated(u: Table)
    requires WellFormed(u)
  {
    if IsEmpty(u) then true
    else if PatientId in u.columns then Admission in u.columns && NoDups(VisitKeys(u))
    else NoDups(u.rows)
  }

  /** The shape of a table `clean_data` returns. */
  predicate Cleaned(u: Table) {
    Prepared(u) && Deduplicated(u)
  }

  lemma AppendDistinct(s: seq<string>, x: string)
    requires NoDups(s) && x !in s
    ensures NoDups(s + [x])
  {
    var r := s + [x];
    forall i, j | 0 <= i < j < |r| ensures r[i] != r[j] {
      if j == |s| {
        assert r[i] == s[i];
      }
    }
  }

  /** The header after steps 1 to 7. */
  lemma PrepareColumns(t: Table, p: Coercions)
    requires Cleanable(t)
    ensures var u := Prepare(t, p);
      NoDups(u.columns) && AliasesSettled(u.columns) &&
      (forall j :: 0 <= j < |u.columns| ==> IsNormal(u.columns[j])) &&
      forall m :: m in u.columns ==> m in Renamed(t).columns || m == LengthOfStay
  {
    var t2 := Renamed(t);
    RenamedColumns(t);
    CanonicalNamesNormal();
    ConvertColumns(t2, p);
    if Admission in t2.columns && Discharge in t2.columns && LengthOfStay !in t2.columns {
      AppendDistinct(t2.columns, LengthOfStay);
    }
  }

  /** A transformed cell is settled for its column. */
  lemma FixCellSettles(m: string, c: Cell, p: Coercions)
    ensures CellSettled(m, FixCell(m, c, p))
  {
    if FixOf(m).Some? {
      FixSettles(FixOf(m).value, c, p);
    }
  }

  /** No transform is applied to `length_of_stay`: it is only ever computed. */
  lemma StayLengthUntransformed()
    ensures FixOf(LengthOfStay) == None
  {
  }

  /** The transform each column name selects. */
  lemma FixOfNames()
    ensures FixOf(Admission) == Some(ParseDate) && FixOf(Discharge) == Some(ParseDate)
    ensures FixOf(Outcome) == Some(LowerStrip)
    ensures FixOf(Age) == Some(ParseNumber) && FixOf(Satisfaction) == Some(ParseNumber)
    ensures FixOf(Department) == Some(FillUnknown) && FixOf(Gender) == Some(FillUnknown)
    ensures FixOf(PatientId) == None
    ensures LengthOfStay !in [Outcome, Department, Gender]
  {
  }

  /** The text a missing outcome becomes is already a normal label. */
  lemma NanIsNormal()
    ensures NormalizeLabel("nan") == "nan"
  {
    assert IsNormal("nan");
    NormalizeLabelFixesNormal("nan");
  }

  /** Steps 3 to 7 leave the cell in row `k`, column `j` settled. */
  lemma PrepareCellSettled(t: Table, p: Coercions, u: Table, k: int, j: int)
    requires Cleanable(t) && u == Prepare(t, p)
    requires 0 <= k < |u.rows| && 0 <= j < |u.columns|
    ensures CellSettled(u.columns[j], u.rows[k][j])
  {
    var t2 := Renamed(t);
    var m := u.columns[j];
    PrepareColumns(t, p);
    IndexOfDistinct(u.columns, j);
    var c := Get(u.columns, u.rows[k], m);
    assert c == u.rows[k][j];
    if m != LengthOfStay {
      ConvertFix(t2, p, k, m);
      FixCellSettles(m, Get(t2.columns, t2.rows[k], m), p);
      assert CellSettled(m, c);
    } else {
      StayLengthUntransformed();
    }
  }

  lemma PrepareCellsSettled(t: Table, p: Coercions)
    requires Cleanable(t)
    ensures CellsSettled(Prepare(t, p))
  {
    var u := Prepare(t, p);
    forall k, j | 0 <= k < |u.rows| && 0 <= j < |u.columns| ensures CellSettled(u.columns[j], u.rows[k][j]) {
      PrepareCellSettled(t, p, u, k, j);
    }
  }

  /** Steps 1 to 7 produce a prepared table. */
  lemma PrepareEstablishes(t: Table, p: Coercions)
    requires Cleanable(t)
    ensures Prepared(Prepare(t, p))
  {
    var t2 := Renamed(t);
    var u := Prepare(t, p);
    PrepareColumns(t, p);
    PrepareCellsSettled(t, p);
    ConvertColumns(t2, p);
    if Admission in u.columns && Discharge in u.columns {
      forall k | 0 <= k < |u.rows|
        ensures Get(u.columns, u.rows[k], LengthOfStay) ==
          StayLength(Get(u.columns, u.rows[k], Admission), Get(u.columns, u.rows[k], Discharge))
      {
        ConvertStay(t2, p, k);
      }
    }
  }

  /** Dropping rows keeps every per-row property of a prepared table. */
  lemma KeepRowsPrepared(u: Table, v: Table)
    requires Prepared(u) && v.columns == u.columns
    requires forall k :: 0 <= k < |v.rows| ==> v.rows[k] in u.rows
    ensures Prepared(v)
  {
    forall k | 0 <= k < |v.rows| ensures |v.rows[k]| == |v.columns| {
      var i := IndexOf(u.rows, v.rows[k]);
    }
    forall k, j | 0 <= k < |v.rows| && 0 <= j < |v.columns| ensures CellSettled(v.columns[j], v.rows[k][j]) {
      var i := IndexOf(u.rows, v.rows[k]);
    }
    if Admission in v.columns && Discharge in v.columns {
      forall k | 0 <= k < |v.rows|
        ensures Get(v.columns, v.rows[k], LengthOfStay) ==
          StayLength(Get(v.columns, v.rows[k], Admission), Get(v.columns, v.rows[k], Discharge))
      {
        var i := IndexOf(u.rows, v.rows[k]);
      }
    }
  }

  /** Step 8 leaves no two rows with the same key. */
  lemma DropDuplicatesDeduplicates(u: Table)
    requires WellFormed(u) && DropDuplicates(u).Ok?
    ensures Deduplicated(DropDuplicates(u).value)
  {
    var v := DropDuplicates(u).value;
    if IsEmpty(u) {
    } else if PatientId in u.columns {
      var keys := VisitKeys(u);
      var idx := FirstIndices(keys);
      KeptFirstKeys(u.rows, keys, v.rows, idx);
      assert VisitKeys(v) == KeysAt(keys, idx);
    } else {
      var idx := FirstIndices(u.rows);
      KeptFirstKeys(u.rows, u.rows, v.rows, idx);
      assert v.rows == KeysAt(u.rows, idx);
    }
  }

  /** A table `clean_data` returns is cleaned. */
  lemma CleanEstablishes(t: Table, p: Coercions)
    requires Cleanable(t) && Clean(t, p).Ok?
    ensures Cleaned(Clean(t, p).value)
  {
    var u := Prepare(t, p);
    var v := Clean(t, p).value;
    PrepareEstablishes(t, p);
    assert forall k :: 0 <= k < |v.rows| ==> v.rows[k] in u.rows by {
      forall k | 0 <= k < |v.rows| ensures v.rows[k] in u.rows {
        if IsEmpty(u) {
        } else if PatientId in u.columns {
          var idx := FirstIndices(VisitKeys(u));
          assert v.rows[k] == u.rows[idx[k]];
        } else {
          var idx := FirstIndices(u.rows);
          assert v.rows[k] == u.rows[idx[k]];
        }
      }
    }
    KeepRowsPrepared(u, v);
    DropDuplicatesDeduplicates(u);
  }

  // ---------------------------------------------------------------- idempotence

  lemma NormalizeColumnNamesFixpoint(u: Table)
    requires forall j :: 0 <= j < |u.columns| ==> IsNormal(u.columns[j])
    ensures NormalizeColumnNames(u) == u
  {
    var v := NormalizeColumnNames(u);
    forall j | 0 <= j < |u.columns| ensures v.columns[j] == u.columns[j] {
      NormalizeNameFixesNormal(u.columns[j]);
    }
  }

  /** On a normal header with the aliases resolved, steps 1 and 2 change
      nothing. */
  lemma RenamedFixpoint(u: Table)
    requires forall j :: 0 <= j < |u.columns| ==> IsNormal(u.columns[j])
    requires AliasesSettled(u.columns)
    ensures Renamed(u) == u
  {
    NormalizeColumnNamesFixpoint(u);
    RenameFirstSettled(u.columns, AdmissionAliases, Admission);
    RenameFirstSettled(u.columns, DischargeAliases, Discharge);
  }

  /** When the canonical name heads the aliases and is present, or no alias
      is, step 2 leaves the names as they are. */
  lemma RenameFirstSettled(columns: seq<string>, aliases: seq<string>, canonical: string)
    requires aliases != [] && aliases[0] == canonical
    requires canonical in columns || forall a :: a in aliases ==> a !in columns
    ensures RenameFirst(columns, aliases, canonical) == columns
  {
    if canonical in columns {
      assert Rename(columns, canonical, canonical) == columns;
    }
  }

  lemma FixColumnFixpoint(t: Table, name: string, p: Coercions)
    requires WellFormed(t) && CellsSettled(t)
    ensures FixColumn(t, name, p) == t
  {
    if FixOf(name).Some? {
      var f := FixOf(name).value;
      var u := MapColumn(t, name, f, p);
      forall k | 0 <= k < |t.rows| ensures u.rows[k] == t.rows[k] {
        var r := MapRow(t.columns, t.rows[k], name, f, p);
        forall j | 0 <= j < |r| ensures r[j] == t.rows[k][j] {
          if t.columns[j] == name {
            FixSettles(f, t.rows[k][j], p);
          }
        }
      }
    }
  }

  lemma {:induction false} FixColumnsFixpoint(t: Table, names: seq<string>, p: Coercions)
    requires WellFormed(t) && CellsSettled(t)
    ensures FixColumns(t, names, p) == t
    decreases |names|
  {
    if names != [] {
      FixColumnFixpoint(t, names[0], p);
      FixColumnsFixpoint(t, names[1..], p);
    }
  }

  /** Recomputing a consistent `length_of_stay` rewrites it with the values
      it already has. */
  lemma AddStayLengthFixpoint(t: Table)
    requires WellFormed(t) && NoDups(t.columns) && StayConsistent(t)
    ensures AddStayLength(t) == t
  {
    if Admission in t.columns && Discharge in t.columns {
      var cells := StayLengths(t);
      var u := PutColumn(t, LengthOfStay, cells);
      forall k | 0 <= k < |t.rows| ensures u.rows[k] == t.rows[k] {
        forall j | 0 <= j < |t.columns| ensures u.rows[k][j] == t.rows[k][j] {
          if t.columns[j] == LengthOfStay {
            IndexOfDistinct(t.columns, j);
          }
        }
      }
    }
  }

  /** A prepared table is a fixed point of steps 1 to 7. */
  lemma PreparedFixpoint(u: Table, p: Coercions)
    requires Prepared(u)
    ensures Cleanable(u) && Prepare(u, p) == u
  {
    NormalizeColumnNamesFixpoint(u);
    assert Cleanable(u);
    RenamedFixpoint(u);
    ConvertFixpoint(u, p);
    assert Prepare(u, p) == Convert(Renamed(u), p);
  }

  lemma ConvertFixpoint(u: Table, p: Coercions)
    requires Prepared(u)
    ensures Convert(u, p) == u
  {
    var t5 := FixColumns(u, EarlyFixes, p);
    FixColumnsFixpoint(u, EarlyFixes, p);
    assert t5 == u;
    AddStayLengthFixpoint(u);
    FixColumnsFixpoint(u, LateFixes, p);
  }

  /** A cleaned table is a fixed point of `clean_data`. */
  lemma CleanedFixpoint(u: Table, p: Coercions)
    requires Cleaned(u)
    ensures Cleanable(u) && Clean(u, p) == Ok(u)
  {
    PreparedFixpoint(u, p);
    if IsEmpty(u) {
    } else if PatientId in u.columns {
      KeepFirstOfDistinct(u.rows, VisitKeys(u));
    } else {
      KeepFirstOfDistinct(u.rows, u.rows);
    }
  }

  /** Steps 1 to 7 are idempotent. */
  lemma PrepareIdempotent(t: Table, p: Coercions)
    requires Cleanable(t)
    ensures Cleanable(Prepare(t, p)) && Prepare(Prepare(t, p), p) == Prepare(t, p)
  {
    PrepareEstablishes(t, p);
    PreparedFixpoint(Prepare(t, p), p);
  }

  /** Cleaning the table a `clean_data` call left behind gives that call's
      outcome again: the same table, or the same `KeyError` when it raised
      one after changing `self.df` in place. */
  lemma CleanAgain(t: Table, p: Coercions)
    requires Cleanable(t)
    ensures Cleanable(Prepare(t, p)) && Clean(Prepare(t, p), p) == Clean(t, p)
  {
    PrepareIdempotent(t, p);
  }

  /** `clean_data` is idempotent. */
  lemma CleanIdempotent(t: Table, p: Coercions)
    requires Cleanable(t) && Clean(t, p).Ok?
    ensures Cleanable(Clean(t, p).value) && Clean(Clean(t, p).value, p) == Clean(t, p)
  {
    CleanEstablishes(t, p);
    CleanedFixpoint(Clean(t, p).value, p);
  }

  // ---------------------------------------------------------------- per-column guarantees

  /** `clean_data` raises exactly when the frame has rows, a `patient_id`
      column and, after the renames, no `admission_date` column; the error
      names the missing column. */
  lemma CleanFails(t: Table, p: Coercions)
    requires Cleanable(t)
    ensures var cols := Renamed(t).columns;
      Clean(t, p).Err? <==> |t.rows| > 0 && PatientId in cols && Admission !in cols
    ensures Clean(t, p).Err? ==> Clean(t, p).error == KeyError(Admission)
  {
    ConvertColumns(Renamed(t), p);
  }

  /** An empty frame, one with no rows or no columns, is cleaned without
      raising: pandas returns it from `drop_duplicates` unchanged. */
  lemma CleanEmpty(t: Table, p: Coercions)
    requires Cleanable(t) && (|t.rows| == 0 || |t.columns| == 0)
    ensures Clean(t, p) == Ok(Prepare(t, p))
  {
    ConvertColumns(Renamed(t), p);
  }

  /** `length_of_stay` is added exactly when both dates are present after the
      renames; a column of that name already in the input is otherwise kept. */
  lemma StayLengthPresent(t: Table, p: Coercions)
    requires Cleanable(t)
    ensures var cols := Renamed(t).columns;
      LengthOfStay in Prepare(t, p).columns <==>
        (Admission in cols && Discharge in cols) || LengthOfStay in cols
  {
    ConvertColumns(Renamed(t), p);
  }

  /** Every returned outcome is text in normal form, so lower-casing and
      stripping it again changes nothing. */
  lemma CleanedOutcomes(t: Table, p: Coercions, k: int)
    requires Cleanable(t) && Clean(t, p).Ok?
    requires Outcome in Clean(t, p).value.columns && 0 <= k < |Clean(t, p).value.rows|
    ensures var u := Clean(t, p).value; var c := Get(u.columns, u.rows[k], Outcome);
      c.Text? && IsNormal(c.s) && NormalizeLabel(c.s) == c.s
  {
    CleanEstablishes(t, p);
    PreparedOutcome(Clean(t, p).value, k);
  }

  lemma PreparedOutcome(u: Table, k: int)
    requires Prepared(u) && Outcome in u.columns && 0 <= k < |u.rows|
    ensures var c := Get(u.columns, u.rows[k], Outcome);
      c.Text? && IsNormal(c.s) && NormalizeLabel(c.s) == c.s
  {
    var j := IndexOf(u.columns, Outcome);
    assert CellSettled(u.columns[j], u.rows[k][j]);
    assert FixOf(Outcome) == Some(LowerStrip);
    NormalizeLabelFixesNormal(u.rows[k][j].s);
  }

  /** A missing outcome becomes the label "nan", it is not dropped. */
  lemma MissingOutcomeIsNan(t: Table, p: Coercions, k: int)
    requires Cleanable(t) && Outcome in Renamed(t).columns && 0 <= k < |t.rows|
    requires Get(Renamed(t).columns, Renamed(t).rows[k], Outcome) == Missing
    ensures var u := Prepare(t, p); Get(u.columns, u.rows[k], Outcome) == Text("nan")
  {
    ConvertFix(Renamed(t), p, k, Outcome);
    MissingOutcomeFix(p);
  }

  lemma MissingOutcomeFix(p: Coercions)
    ensures FixCell(Outcome, Missing, p) == Text("nan")
  {
    assert FixOf(Outcome) == Some(LowerStrip);
    assert AsText(Missing, p) == "nan";
    NanIsNormal();
  }

  /** `department` and `gender`: missing cells become "Unknown", the others
      are kept as they are. */
  lemma FillsUnknown(t: Table, p: Coercions, k: int, m: string)
    requires Cleanable(t) && (m == Department || m == Gender)
    requires m in Renamed(t).columns && 0 <= k < |t.rows|
    ensures var t2 := Renamed(t); var u := Prepare(t, p);
      var c := Get(t2.columns, t2.rows[k], m);
      Get(u.columns, u.rows[k], m) == if c == Missing then Text("Unknown") else c
  {
    FixOfNames();
    ConvertFix(Renamed(t), p, k, m);
  }

  /** Every returned `department` and `gender` cell is present. */
  lemma CleanedFills(t: Table, p: Coercions, k: int, m: string)
    requires Cleanable(t) && Clean(t, p).Ok? && (m == Department || m == Gender)
    requires m in Clean(t, p).value.columns && 0 <= k < |Clean(t, p).value.rows|
    ensures var u := Clean(t, p).value; Get(u.columns, u.rows[k], m) != Missing
  {
    var u := Clean(t, p).value;
    CleanEstablishes(t, p);
    FixOfNames();
    var j := IndexOf(u.columns, m);
    assert CellSettled(u.columns[j], u.rows[k][j]);
  }

  /** Returned dates are timestamps or missing, ages and satisfactions are
      numbers or missing. */
  lemma CleanedTypes(t: Table, p: Coercions, k: int, m: string)
    requires Cleanable(t) && Clean(t, p).Ok?
    requires m in Clean(t, p).value.columns && 0 <= k < |Clean(t, p).value.rows|
    ensures var u := Clean(t, p).value; var c := Get(u.columns, u.rows[k], m);
      (m == Admission || m == Discharge ==> c == Missing || c.Timestamp?) &&
      (m == Age || m == Satisfaction ==> c == Missing || c.Number?)
  {
    CleanEstablishes(t, p);
    PreparedTypes(Clean(t, p).value, k, m);
  }

  lemma PreparedTypes(u: Table, k: int, m: string)
    requires Prepared(u) && m in u.columns && 0 <= k < |u.rows|
    ensures var c := Get(u.columns, u.rows[k], m);
      (m == Admission || m == Discharge ==> c == Missing || c.Timestamp?) &&
      (m == Age || m == Satisfaction ==> c == Missing || c.Number?)
  {
    var j := IndexOf(u.columns, m);
    assert CellSettled(u.columns[j], u.rows[k][j]);
    FixOfNames();
  }

  /** Each returned `length_of_stay` is the whole days from admission to
      discharge when both are known and missing otherwise; it is negative
      exactly when the discharge comes first. */
  lemma CleanedStayLength(t: Table, p: Coercions, k: int)
    requires Cleanable(t) && Clean(t, p).Ok?
    requires var u := Clean(t, p).value; Admission in u.columns && Discharge in u.columns
    requires 0 <= k < |Clean(t, p).value.rows|
    ensures var u := Clean(t, p).value;
      var a := Get(u.columns, u.rows[k], Admission);
      var d := Get(u.columns, u.rows[k], Discharge);
      LengthOfStay in u.columns &&
      var n := Get(u.columns, u.rows[k], LengthOfStay);
      (a.Timestamp? && d.Timestamp? ==>
         n == Number((DayNumber(d.date) - DayNumber(a.date)) as real) &&
         (n.x < 0.0 <==> Before(d.date, a.date))) &&
      (!(a.Timestamp? && d.Timestamp?) ==> n == Missing)
  {
    CleanEstablishes(t, p);
    PreparedStayLength(Clean(t, p).value, k);
  }

  lemma PreparedStayLength(u: Table, k: int)
    requires Prepared(u) && Admission in u.columns && Discharge in u.columns
    requires 0 <= k < |u.rows|
    ensures var a := Get(u.columns, u.rows[k], Admission);
      var d := Get(u.columns, u.rows[k], Discharge);
      LengthOfStay in u.columns &&
      var n := Get(u.columns, u.rows[k], LengthOfStay);
      (a.Timestamp? && d.Timestamp? ==>
         n == Number((DayNumber(d.date) - DayNumber(a.date)) as real) &&
         (n.x < 0.0 <==> Before(d.date, a.date))) &&
      (!(a.Timestamp? && d.Timestamp?) ==> n == Missing)
  {
    var a := Get(u.columns, u.rows[k], Admission);
    var d := Get(u.columns, u.rows[k], Discharge);
    if a.Timestamp? && d.Timestamp? {
      StayLengthSign(a.date, d.date);
    }
  }

  // ---------------------------------------------------------------- a worked case

  lemma DischargeLabel()
    ensures NormalizeLabel("Discharge ") == "discharge"
  {
    LowerDischarge();
    StripDischarge();
  }

  lemma LowerDischarge()
    ensures Lower("Discharge ") == "discharge "
  {
    var s := "Discharge ";
    var l := Lower(s);
    assert |l| == 10;
    assert l[0] == LowerChar('D') == 'd';
    forall i | 1 <= i < 10 ensures l[i] == s[i] {
      assert !IsUpper(s[i]);
    }
  }

  lemma StripDischarge()
    ensures Strip("discharge ") == "discharge"
  {
    var l := "discharge ";
    assert TrimLeft(l) == l;
    assert l[..9] == "discharge";
    assert TrimRight("discharge") == "discharge";
  }

  lemma ExampleNames(columns: seq<string>)
    requires columns == [PatientId, Admission, Outcome]
    ensures NoDups(columns) && Discharge !in columns
    ensures AliasesSettled(columns)
  {
    assert |PatientId| == 10 && |Admission| == 14 && |Outcome| == 7;
    forall i, j | 0 <= i < j < 3 ensures columns[i] != columns[j] {
      assert |columns[i]| != |columns[j]|;
    }
    assert Discharge[0] != Admission[0];
    assert |"date_discharged"| == 15;
  }

  lemma ExampleNamesNormal(columns: seq<string>)
    requires columns == [PatientId, Admission, Outcome]
    ensures forall j :: 0 <= j < |columns| ==> IsNormal(columns[j])
  {
    NameNormal(PatientId);
    NameNormal(Admission);
    NameNormal(Outcome);
  }

  /** A name of lower-case letters and underscores is normal. */
  lemma NameNormal(s: string)
    requires forall i :: 0 <= i < |s| ==> 'a' <= s[i] <= 'z' || s[i] == '_'
    ensures IsNormal(s)
  {
  }

  lemma ExampleHeader(t: Table)
    requires t.columns == [PatientId, Admission, Outcome]
    ensures NormalizeColumnNames(t) == t && Renamed(t) == t
    ensures NoDups(t.columns) && Discharge !in t.columns
  {
    ExampleNames(t.columns);
    ExampleNamesNormal(t.columns);
    NormalizeColumnNamesFixpoint(t);
    RenamedFixpoint(t);
  }

  /** Steps 1 to 7 on one cell of a table with the example's header: the
      column's own transform. */
  lemma ExampleCell(t: Table, u: Table, p: Coercions, k: int, j: int)
    requires WellFormed(t) && t.columns == [PatientId, Admission, Outcome]
    requires u == Prepare(t, p) && 0 <= k < |t.rows| && 0 <= j < 3
    ensures u.columns == t.columns && |u.rows| == |t.rows| && |u.rows[k]| == 3
    ensures u.rows[k][j] == FixCell(t.columns[j], t.rows[k][j], p)
  {
    ExampleHeader(t);
    ConvertColumns(t, p);
    ConvertFix(t, p, k, t.columns[j]);
    IndexOfDistinct(t.columns, j);
  }

  /** Equal input cells of one column come out of steps 1 to 7 equal. */
  lemma ExampleSameCell(t: Table, u: Table, p: Coercions, j: int)
    requires WellFormed(t) && t.columns == [PatientId, Admission, Outcome] && |t.rows| == 2
    requires u == Prepare(t, p) && 0 <= j < 3 && t.rows[0][j] == t.rows[1][j]
    ensures u.columns == t.columns && |u.rows| == 2 && |u.rows[0]| == |u.rows[1]| == 3
    ensures u.rows[0][j] == u.rows[1][j]
  {
    ExampleCell(t, u, p, 0, j);
    ExampleCell(t, u, p, 1, j);
  }

  lemma RowOfThree(r: Row, a: Cell, b: Cell, c: Cell)
    requires |r| == 3 && r[0] == a && r[1] == b && r[2] == c
    ensures r == [a, b, c]
  {
  }

  /** Two rows of one visit under the example's header clean to the first
      row, each cell passed through its column's transform. */
  lemma SameVisitPair(t: Table, p: Coercions)
    requires WellFormed(t) && t.columns == [PatientId, Admission, Outcome] && |t.rows| == 2
    requires t.rows[0][0] == t.rows[1][0] && t.rows[0][1] == t.rows[1][1]
    ensures Cleanable(t)
    ensures Clean(t, p) == Ok(Table(t.columns, [[FixCell(PatientId, t.rows[0][0], p),
      FixCell(Admission, t.rows[0][1], p), FixCell(Outcome, t.rows[0][2], p)]]))
  {
    ExampleHeader(t);
    var u := Prepare(t, p);
    SameVisitPrepared(t, u, p);
    DropSameVisitPair(u);
  }

  /** Steps 1 to 7 on the pair: one visit key, and the first row's cells
      each through its column's transform. */
  lemma SameVisitPrepared(t: Table, u: Table, p: Coercions)
    requires WellFormed(t) && t.columns == [PatientId, Admission, Outcome] && |t.rows| == 2
    requires t.rows[0][0] == t.rows[1][0] && t.rows[0][1] == t.rows[1][1]
    requires u == Prepare(t, p)
    ensures u.columns == t.columns && |u.rows| == 2
    ensures WellFormed(u) && PatientId in u.columns && Admission in u.columns
    ensures VisitKeys(u)[0] == VisitKeys(u)[1]
    ensures u.rows[0] == [FixCell(PatientId, t.rows[0][0], p),
      FixCell(Admission, t.rows[0][1], p), FixCell(Outcome, t.rows[0][2], p)]
  {
    SameVisitKeys(t, u, p);
    ExampleRow(t, u, p, 0);
  }

  lemma SameVisitKeys(t: Table, u: Table, p: Coercions)
    requires WellFormed(t) && t.columns == [PatientId, Admission, Outcome] && |t.rows| == 2
    requires t.rows[0][0] == t.rows[1][0] && t.rows[0][1] == t.rows[1][1]
    requires u == Prepare(t, p)
    ensures u.columns == t.columns && |u.rows| == 2
    ensures WellFormed(u) && PatientId in u.columns && Admission in u.columns
    ensures VisitKeys(u)[0] == VisitKeys(u)[1]
  {
    ExampleSameCell(t, u, p, 0);
    ExampleSameCell(t, u, p, 1);
    ExampleKeys(u);
  }

  /** Two rows of the example header that agree on their first two cells
      have the same visit key. */
  lemma ExampleKeys(u: Table)
    requires WellFormed(u) && u.columns == [PatientId, Admission, Outcome] && |u.rows| == 2
    requires u.rows[0][0] == u.rows[1][0] && u.rows[0][1] == u.rows[1][1]
    ensures PatientId in u.columns && Admission in u.columns
    ensures VisitKeys(u)[0] == VisitKeys(u)[1]
  {
    ExampleNames(u.columns);
    IndexOfDistinct(u.columns, 0);
    IndexOfDistinct(u.columns, 1);
  }

  /** Row `k` of the example after steps 1 to 7, cell by cell. */
  lemma ExampleRow(t: Table, u: Table, p: Coercions, k: int)
    requires WellFormed(t) && t.columns == [PatientId, Admission, Outcome]
    requires u == Prepare(t, p) && 0 <= k < |t.rows|
    ensures u.rows[k] == [FixCell(PatientId, t.rows[k][0], p),
      FixCell(Admission, t.rows[k][1], p), FixCell(Outcome, t.rows[k][2], p)]
  {
    ExampleCell(t, u, p, k, 0);
    ExampleCell(t, u, p, k, 1);
    ExampleCell(t, u, p, k, 2);
    RowOfThree(u.rows[k], FixCell(PatientId, t.rows[k][0], p),
      FixCell(Admission, t.rows[k][1], p), FixCell(Outcome, t.rows[k][2], p));
  }

  lemma FirstIndicesOfPair<K>(keys: seq<K>)
    requires |keys| == 2 && keys[0] == keys[1]
    ensures FirstIndices(keys) == [0]
  {
    assert keys[..1] == [keys[0]];
    assert FirstIndices(keys[..1]) == [0];
    assert !IsFirst(keys, 1);
  }

  /** Two rows of the same visit, whatever its patient and date: cleaning
      keeps only the first, whose outcome "Discharge " comes back as
      "discharge", and whose date is whatever it parses to. */
  lemma DuplicateVisitExample(id: Cell, date: Cell, p: Coercions)
    ensures var t := Table([PatientId, Admission, Outcome],
      [[id, date, Text("Discharge ")], [id, date, Text("death")]]);
      Cleanable(t) &&
      Clean(t, p) == Ok(Table(t.columns, [[id, ToDatetime(date, p), Text("discharge")]]))
  {
    var t := Table([PatientId, Admission, Outcome],
      [[id, date, Text("Discharge ")], [id, date, Text("death")]]);
    SameVisitPair(t, p);
    ExampleFixes(id, date, p);
  }

  lemma ExampleFixes(id: Cell, date: Cell, p: Coercions)
    ensures FixCell(PatientId, id, p) == id
    ensures FixCell(Admission, date, p) == ToDatetime(date, p)
    ensures FixCell(Outcome, Text("Discharge "), p) == Text("discharge")
  {
    FixOfNames();
    OutcomeFix(p);
  }

  lemma OutcomeFix(p: Coercions)
    ensures FixCell(Outcome, Text("Discharge "), p) == Text("discharge")
  {
    OutcomeTextFix("Discharge ", p);
    DischargeLabel();
  }

  lemma OutcomeTextFix(s: string, p: Coercions)
    ensures FixCell(Outcome, Text(s), p) == Text(NormalizeLabel(s))
  {
    assert FixOf(Outcome) == Some(LowerStrip);
  }

  /** Of two rows of one visit, step 8 keeps the first. */
  lemma DropSameVisitPair(u: Table)
    requires WellFormed(u) && PatientId in u.columns && Admission in u.columns
    requires |u.rows| == 2 && VisitKeys(u)[0] == VisitKeys(u)[1]
    ensures DropDuplicates(u) == Ok(u.(rows := [u.rows[0]]))
  {
    var keys := VisitKeys(u);
    FirstIndicesOfPair(keys);
    assert KeepFirst(u.rows, keys) == [u.rows[0]];
  }
}
