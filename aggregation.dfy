/** `aggregate_by` and `average_satisfaction_by_department`: group sizes and
    group means, largest first. */
module Aggregation {
  import opened Seqs
  import opened Frame
  import opened Cleaning

  // ---------------------------------------------------------------- sizes

  /** `df.groupby(column).size().sort_values(ascending=False)`: every key
      present in the column once, with its number of rows, largest first;
      rows whose key is missing form no group. */
  function AggregateCount(t: Table, column: string): (r: Result<seq<Tally<Cell>>>)
    requires WellFormed(t)
    ensures r.Err? <==> column !in t.columns
    ensures r.Err? ==> r.error == KeyError(column)
    ensures r.Ok? ==> var keys := Column(t, column);
      NoDups(Keys(r.value)) &&
      (forall x :: x in Keys(r.value) ==> x in keys && x != Missing) &&
      (forall x :: x in keys && x != Missing ==> x in Keys(r.value)) &&
      (forall k :: 0 <= k < |r.value| ==> r.value[k].size == Count(keys, r.value[k].key)) &&
      (forall k, l :: 0 <= k < l < |r.value| ==> r.value[k].size >= r.value[l].size)
  {
    if column !in t.columns then Err(KeyError(column))
    else
      var keys := Column(t, column);
      var vc := ValueCounts(Present(keys));
      assert forall k :: 0 <= k < |vc| ==> vc[k].key == Keys(vc)[k];
      forall k | 0 <= k < |vc| ensures vc[k].size == Count(keys, vc[k].key) {
        assert vc[k].key in Keys(vc);
        PresentCount(keys, vc[k].key);
      }
      Ok(vc)
  }

  /** The group sizes add up to the number of rows with a key. */
  lemma AggregateCountTotal(t: Table, column: string)
    requires WellFormed(t) && column in t.columns
    ensures SumSizes(AggregateCount(t, column).value) == |t.rows| - Count(Column(t, column), Missing)
  {
    var keys := Column(t, column);
    ValueCountsTotal(Present(keys));
    PresentLength(keys);
  }

  // ---------------------------------------------------------------- means

  datatype GroupMean = GroupMean(key: Cell, mean: Option<real>)

  function KeysOf(r: seq<GroupMean>): seq<Cell> {
    seq(|r|, k requires 0 <= k < |r| => r[k].key)
  }

  /** The numbers in `values` on the rows whose key is `g`, in row order;
      missing values are skipped. */
  function ValuesOf(keys: seq<Cell>, values: seq<Cell>, g: Cell): (r: seq<real>)
    requires |keys| == |values|
    ensures forall x :: x in r ==> exists i :: 0 <= i < |keys| && keys[i] == g && values[i] == Number(x)
    ensures forall i :: 0 <= i < |keys| && keys[i] == g && values[i].Number? ==> values[i].x in r
  {
    if keys == [] then []
    else
      var n := |keys| - 1;
      var rest := ValuesOf(keys[..n], values[..n], g);
      assert forall i :: 0 <= i < n ==> keys[..n][i] == keys[i] && values[..n][i] == values[i];
      rest + (if keys[n] == g && values[n].Number? then [values[n].x] else [])
  }

  /** A group's mean sees each number as often as the group's rows carry
      it. */
  lemma {:induction false} ValuesOfCount(keys: seq<Cell>, values: seq<Cell>, g: Cell, x: real)
    requires |keys| == |values|
    ensures Count(ValuesOf(keys, values, g), x) == Count(Zip(keys, values), (g, Number(x)))
  {
    if keys != [] {
      var n := |keys| - 1;
      ValuesOfCount(keys[..n], values[..n], g, x);
      ZipInit(keys, values);
      CountAppend(Zip(keys[..n], values[..n]), (keys[n], values[n]), (g, Number(x)));
      var rest := ValuesOf(keys[..n], values[..n], g);
      if keys[n] == g && values[n].Number? {
        CountAppend(rest, values[n].x, x);
      } else {
        assert ValuesOf(keys, values, g) == rest + [];
        assert rest + [] == rest;
      }
    }
  }

  /** The arithmetic mean, or none (NaN) for no values. */
  function Mean(xs: seq<real>): Option<real> {
    if xs == [] then None else Some(Sum(xs) / |xs| as real)
  }

  lemma {:induction false} SumBounds(xs: seq<real>, lo: real, hi: real)
    requires forall x :: x in xs ==> lo <= x <= hi
    ensures |xs| as real * lo <= Sum(xs) <= |xs| as real * hi
  {
    if xs != [] {
      assert forall x :: x in xs[1..] ==> x in xs;
      SumBounds(xs[1..], lo, hi);
      var n := |xs[1..]| as real;
      assert xs[0] in xs;
      assert Sum(xs) == xs[0] + Sum(xs[1..]);
      BoundStep(|xs| as real, n, xs[0], Sum(xs[1..]), lo, hi);
    }
  }

  lemma BoundStep(m: real, n: real, x: real, rest: real, lo: real, hi: real)
    requires m == n + 1.0 && lo <= x <= hi && n * lo <= rest <= n * hi
    ensures m * lo <= x + rest <= m * hi
  {
    assert m * lo == lo + n * lo;
    assert m * hi == hi + n * hi;
  }

  /** A mean lies between the smallest and the largest value. */
  lemma MeanBounds(xs: seq<real>, lo: real, hi: real)
    requires xs != [] && forall x :: x in xs ==> lo <= x <= hi
    ensures lo <= Mean(xs).value <= hi
  {
    SumBounds(xs, lo, hi);
    var n := |xs| as real;
    assert Sum(xs) / n >= lo by {
      assert Sum(xs) >= n * lo;
      assert (n * lo) / n == lo;
    }
    assert Sum(xs) / n <= hi by {
      assert Sum(xs) <= n * hi;
      assert (n * hi) / n == hi;
    }
  }

  function MeanOf(keys: seq<Cell>, values: seq<Cell>, g: Cell): Option<real>
    requires |keys| == |values|
  {
    Mean(ValuesOf(keys, values, g))
  }

  /** What `mean` can average: numbers, with missing values skipped. */
  predicate Numeric(cells: seq<Cell>) {
    forall k :: 0 <= k < |cells| ==> cells[k] == Missing || cells[k].Number?
  }

  /** What a grouped `mean` averages: `groupby` first drops the rows whose
      key is missing, so only the values of the other rows must be numbers
      or missing. */
  predicate GroupedNumeric(keys: seq<Cell>, values: seq<Cell>)
    requires |keys| == |values|
  {
    forall k :: 0 <= k < |values| && keys[k] != Missing ==> values[k] == Missing || values[k].Number?
  }

  /** The order key of a group: its mean, or 0.0 for a group without one
      (such groups are not sorted, they go last). */
  function MeanKey(keys: seq<Cell>, values: seq<Cell>, g: Cell): real
    requires |keys| == |values|
  {
    var m := MeanOf(keys, values, g);
    if m.Some? then m.value else 0.0
  }

  /** The groups in result order: those with a mean by descending mean, then
      those without one (NaN sorts last), each group once. */
  function MeanOrder(keys: seq<Cell>, values: seq<Cell>): (order: seq<Cell>)
    requires |keys| == |values|
    ensures NoDups(order)
    ensures forall g :: g in order ==> g in keys && g != Missing
    ensures forall g :: g in keys && g != Missing ==> g in order
    ensures forall i, j :: 0 <= i < j < |order| && MeanOf(keys, values, order[j]).Some? ==>
      MeanOf(keys, values, order[i]).Some? &&
      MeanOf(keys, values, order[i]).value >= MeanOf(keys, values, order[j]).value
  {
    var groups := Distinct(Present(keys));
    var known := Filter(groups, g => MeanOf(keys, values, g).Some?);
    var unknown := Filter(groups, g => MeanOf(keys, values, g).None?);
    var sorted := SortDesc(known, g => MeanKey(keys, values, g));
    MeanOrderFacts(keys, values, groups, known, unknown, sorted);
    sorted + unknown
  }

  lemma MeanOrderFacts(keys: seq<Cell>, values: seq<Cell>, groups: seq<Cell>,
                       known: seq<Cell>, unknown: seq<Cell>, sorted: seq<Cell>)
    requires |keys| == |values|
    requires groups == Distinct(Present(keys))
    requires known == Filter(groups, g => MeanOf(keys, values, g).Some?)
    requires unknown == Filter(groups, g => MeanOf(keys, values, g).None?)
    requires sorted == SortDesc(known, g => MeanKey(keys, values, g))
    ensures NoDups(sorted + unknown)
    ensures forall g :: g in sorted + unknown <==> g in keys && g != Missing
    ensures forall i, j :: 0 <= i < j < |sorted + unknown| && MeanOf(keys, values, (sorted + unknown)[j]).Some? ==>
      MeanOf(keys, values, (sorted + unknown)[i]).Some? &&
      MeanOf(keys, values, (sorted + unknown)[i]).value >= MeanOf(keys, values, (sorted + unknown)[j]).value
  {
    KnownUnknown(keys, values, groups, known, unknown);
    SortedKnown(keys, values, known, sorted);
    MeansLast(keys, values, sorted, unknown);
    forall g ensures g in sorted + unknown <==> g in keys && g != Missing {
      assert g in sorted + unknown <==> g in sorted || g in unknown;
    }
  }

  /** Splitting the groups by whether they have a mean keeps each group once,
      and on exactly one side. */
  lemma KnownUnknown(keys: seq<Cell>, values: seq<Cell>, groups: seq<Cell>,
                     known: seq<Cell>, unknown: seq<Cell>)
    requires |keys| == |values|
    requires groups == Distinct(Present(keys))
    requires known == Filter(groups, g => MeanOf(keys, values, g).Some?)
    requires unknown == Filter(groups, g => MeanOf(keys, values, g).None?)
    ensures NoDups(known) && NoDups(unknown)
    ensures forall g :: g in known ==> MeanOf(keys, values, g).Some?
    ensures forall g :: g in unknown ==> MeanOf(keys, values, g).None?
    ensures forall g :: g in known || g in unknown <==> g in keys && g != Missing
  {
    FilterNoDups(groups, g => MeanOf(keys, values, g).Some?);
    FilterNoDups(groups, g => MeanOf(keys, values, g).None?);
  }

  /** Sorting the groups that have a mean keeps each of them once, in
      descending order of mean. */
  lemma SortedKnown(keys: seq<Cell>, values: seq<Cell>, known: seq<Cell>, sorted: seq<Cell>)
    requires |keys| == |values|
    requires NoDups(known)
    requires sorted == SortDesc(known, g => MeanKey(keys, values, g))
    ensures NoDups(sorted)
    ensures forall g :: g in sorted <==> g in known
    ensures forall i, j :: 0 <= i < j < |sorted| ==>
      MeanKey(keys, values, sorted[i]) >= MeanKey(keys, values, sorted[j])
  {
    SortDescNoDups(known, g => MeanKey(keys, values, g));
    forall g ensures g in sorted <==> g in known {
      assert g in sorted <==> g in multiset(sorted);
      assert g in known <==> g in multiset(known);
    }
  }

  /** Groups with a mean, by descending mean, followed by groups without one
      satisfy the ordering of the result. */
  lemma MeansLast(keys: seq<Cell>, values: seq<Cell>, sorted: seq<Cell>, unknown: seq<Cell>)
    requires |keys| == |values|
    requires NoDups(sorted) && NoDups(unknown)
    requires forall g :: g in sorted ==> MeanOf(keys, values, g).Some?
    requires forall g :: g in unknown ==> MeanOf(keys, values, g).None?
    requires forall i, j :: 0 <= i < j < |sorted| ==>
      MeanKey(keys, values, sorted[i]) >= MeanKey(keys, values, sorted[j])
    ensures NoDups(sorted + unknown)
    ensures forall i, j :: 0 <= i < j < |sorted + unknown| && MeanOf(keys, values, (sorted + unknown)[j]).Some? ==>
      MeanOf(keys, values, (sorted + unknown)[i]).Some? &&
      MeanOf(keys, values, (sorted + unknown)[i]).value >= MeanOf(keys, values, (sorted + unknown)[j]).value
  {
    var order := sorted + unknown;
    forall i, j | 0 <= i < j < |order| ensures order[i] != order[j] {
      if j < |sorted| {
        assert order[i] == sorted[i] && order[j] == sorted[j];
      } else if i >= |sorted| {
        assert order[i] == unknown[i - |sorted|] && order[j] == unknown[j - |sorted|];
      } else {
        assert order[i] == sorted[i] && order[j] == unknown[j - |sorted|];
        assert MeanOf(keys, values, order[i]).Some?;
      }
    }
    forall j | |sorted| <= j < |order| ensures MeanOf(keys, values, order[j]).None? {
      assert order[j] == unknown[j - |sorted|];
    }
    forall i, j | 0 <= i < j < |sorted|
      ensures MeanOf(keys, values, order[i]).Some? &&
        MeanOf(keys, values, order[i]).value >= MeanOf(keys, values, order[j]).value
    {
      assert order[i] == sorted[i] && order[j] == sorted[j];
      assert sorted[i] in sorted && sorted[j] in sorted;
    }
  }
  /** A group has no mean (NaN) exactly when none of its rows has a value. */
  lemma MeanMissing(keys: seq<Cell>, values: seq<Cell>, g: Cell)
    requires |keys| == |values|
    ensures MeanOf(keys, values, g).None? <==>
      forall i :: 0 <= i < |keys| && keys[i] == g ==> !values[i].Number?
  {
    var xs := ValuesOf(keys, values, g);
    if xs != [] {
      assert xs[0] in xs;
    }
  }

  /** A group's mean lies within any bounds on the group's values. */
  lemma MeanWithin(keys: seq<Cell>, values: seq<Cell>, g: Cell, lo: real, hi: real)
    requires |keys| == |values|
    requires forall i :: 0 <= i < |keys| && keys[i] == g && values[i].Number? ==> lo <= values[i].x <= hi
    ensures MeanOf(keys, values, g).Some? ==> lo <= MeanOf(keys, values, g).value <= hi
  {
    var xs := ValuesOf(keys, values, g);
    if xs != [] {
      MeanBounds(xs, lo, hi);
    }
  }

  /** `df.groupby(column)[value_col].mean().sort_values(ascending=False)`:
      every key present in `column` once, with the mean of its rows' values;
      groups without any value have no mean and come last. */
  function AggregateMean(t: Table, column: string, valueCol: string): (r: Result<seq<GroupMean>>)
    requires WellFormed(t)
    ensures column !in t.columns ==> r == Err(KeyError(column))
    ensures column in t.columns && valueCol !in t.columns ==> r == Err(KeyError(valueCol))
    ensures column in t.columns && valueCol in t.columns ==>
      (r.Err? <==> !GroupedNumeric(Column(t, column), Column(t, valueCol))) &&
      (r.Err? ==> r.error == TypeError(valueCol))
    ensures r.Ok? ==> column in t.columns && valueCol in t.columns
    ensures r.Ok? ==>
      var keys := Column(t, column);
      var values := Column(t, valueCol);
      NoDups(KeysOf(r.value)) &&
      (forall g :: g in KeysOf(r.value) <==> g in keys && g != Missing) &&
      (forall k :: 0 <= k < |r.value| ==> r.value[k].mean == MeanOf(keys, values, r.value[k].key)) &&
      (forall k, l :: 0 <= k < l < |r.value| && r.value[l].mean.Some? ==>
        r.value[k].mean.Some? && r.value[k].mean.value >= r.value[l].mean.value)
  {
    if column !in t.columns then Err(KeyError(column))
    else if valueCol !in t.columns then Err(KeyError(valueCol))
    else
      var keys := Column(t, column);
      var values := Column(t, valueCol);
      if !GroupedNumeric(keys, values) then Err(TypeError(valueCol))
      else Ok(GroupMeans(keys, values))
  }

  /** A row without a key is dropped before `mean`, so text in its value
      cell raises nothing. */
  lemma MissingKeyIgnored(column: string, valueCol: string, g: Cell, x: real, word: string)
    requires column != valueCol && g != Missing
    ensures var t := Table([column, valueCol], [[Missing, Text(word)], [g, Number(x)]]);
      WellFormed(t) && AggregateMean(t, column, valueCol) == Ok([GroupMean(g, Some(x))])
  {
    MissingKeyTable(Table([column, valueCol], [[Missing, Text(word)], [g, Number(x)]]), column, valueCol, g, x, word);
  }

  lemma MissingKeyTable(t: Table, column: string, valueCol: string, g: Cell, x: real, word: string)
    requires column != valueCol && g != Missing && t.columns == [column, valueCol]
    requires |t.rows| == 2 && t.rows[0] == [Missing, Text(word)] && t.rows[1] == [g, Number(x)]
    ensures WellFormed(t) && AggregateMean(t, column, valueCol) == Ok([GroupMean(g, Some(x))])
  {
    assert WellFormed(t);
    assert IndexOf(t.columns, column) == 0;
    assert IndexOf(t.columns, valueCol) == 1;
    var keys := Column(t, column);
    var values := Column(t, valueCol);
    assert keys[0] == Missing && keys[1] == g;
    assert values[0] == Text(word) && values[1] == Number(x);
    assert GroupedNumeric(keys, values);
    MissingKeyMeans(keys, values, g, x, word);
    MeanOk(t, column, valueCol);
  }

  lemma MeanOk(t: Table, column: string, valueCol: string)
    requires WellFormed(t) && column in t.columns && valueCol in t.columns
    requires GroupedNumeric(Column(t, column), Column(t, valueCol))
    ensures AggregateMean(t, column, valueCol) == Ok(GroupMeans(Column(t, column), Column(t, valueCol)))
  {
  }

  lemma MissingKeyMeans(keys: seq<Cell>, values: seq<Cell>, g: Cell, x: real, word: string)
    requires g != Missing && |keys| == |values| == 2
    requires keys[0] == Missing && keys[1] == g && values[0] == Text(word) && values[1] == Number(x)
    ensures GroupMeans(keys, values) == [GroupMean(g, Some(x))]
  {
    OnlyKey(keys, g);
    SecondRowMean(keys, values, g, x, word);
    OneGroup(keys, values, GroupMeans(keys, values), g);
  }

  lemma OnlyKey(keys: seq<Cell>, g: Cell)
    requires |keys| == 2 && keys[0] == Missing && keys[1] == g
    ensures g in keys && forall c :: c in keys && c != Missing ==> c == g
  {
    assert keys == [Missing, g];
  }

  lemma SecondRowMean(keys: seq<Cell>, values: seq<Cell>, g: Cell, x: real, word: string)
    requires g != Missing && |keys| == |values| == 2
    requires keys[0] == Missing && keys[1] == g && values[0] == Text(word) && values[1] == Number(x)
    ensures MeanOf(keys, values, g) == Some(x)
  {
    SecondRowValues(keys, values, g, x, word);
    assert Sum([x]) == x + Sum([]);
  }

  /** With one present key, the group means are that key's mean alone. */
  lemma OneGroup(keys: seq<Cell>, values: seq<Cell>, r: seq<GroupMean>, g: Cell)
    requires |keys| == |values| && g != Missing && g in keys
    requires forall c :: c in keys && c != Missing ==> c == g
    requires NoDups(KeysOf(r)) && forall c :: c in KeysOf(r) <==> c in keys && c != Missing
    requires forall k :: 0 <= k < |r| ==> r[k].mean == MeanOf(keys, values, r[k].key)
    ensures r == [GroupMean(g, MeanOf(keys, values, g))]
  {
    var ks := KeysOf(r);
    assert g in ks;
    assert forall k :: 0 <= k < |ks| ==> ks[k] == g by {
      forall k | 0 <= k < |ks| ensures ks[k] == g {
        assert ks[k] in ks;
      }
    }
    OneKey(ks, g);
    assert |r| == 1 && r[0].key == ks[0];
  }

  lemma SecondRowValues(keys: seq<Cell>, values: seq<Cell>, g: Cell, x: real, word: string)
    requires g != Missing && |keys| == |values| == 2
    requires keys[0] == Missing && keys[1] == g && values[0] == Text(word) && values[1] == Number(x)
    ensures ValuesOf(keys, values, g) == [x]
  {
    assert ValuesOf(keys[..1], values[..1], g) == [] by {
      assert keys[..1][..0] == [];
    }
  }

  lemma OneKey(s: seq<Cell>, g: Cell)
    requires NoDups(s) && g in s && forall k :: 0 <= k < |s| ==> s[k] == g
    ensures s == [g]
  {
    if |s| > 1 {
      NoDupsAt(s, 0, 1);
      assert false;
    }
  }

  /** The group means of `values` keyed by `keys`, in result order. */
  function GroupMeans(keys: seq<Cell>, values: seq<Cell>): (r: seq<GroupMean>)
    requires |keys| == |values|
    ensures NoDups(KeysOf(r))
    ensures forall g :: g in KeysOf(r) <==> g in keys && g != Missing
    ensures forall k :: 0 <= k < |r| ==> r[k].mean == MeanOf(keys, values, r[k].key)
    ensures forall k, l :: 0 <= k < l < |r| && r[l].mean.Some? ==>
      r[k].mean.Some? && r[k].mean.value >= r[l].mean.value
  {
    var order := MeanOrder(keys, values);
    var r := WithMeans(keys, values, order);
    GroupMeansFacts(keys, values, order, r);
    r
  }

  /** Each group of `order` with its mean. */
  function WithMeans(keys: seq<Cell>, values: seq<Cell>, order: seq<Cell>): (r: seq<GroupMean>)
    requires |keys| == |values|
    ensures |r| == |order|
    ensures forall k :: 0 <= k < |r| ==> r[k] == GroupMean(order[k], MeanOf(keys, values, order[k]))
  {
    seq(|order|, k requires 0 <= k < |order| => GroupMean(order[k], MeanOf(keys, values, order[k])))
  }

  lemma GroupMeansFacts(keys: seq<Cell>, values: seq<Cell>, order: seq<Cell>, r: seq<GroupMean>)
    requires |keys| == |values|
    requires order == MeanOrder(keys, values)
    requires |r| == |order|
    requires forall k :: 0 <= k < |r| ==> r[k] == GroupMean(order[k], MeanOf(keys, values, order[k]))
    ensures NoDups(KeysOf(r))
    ensures forall g :: g in KeysOf(r) <==> g in keys && g != Missing
    ensures forall k :: 0 <= k < |r| ==> r[k].mean == MeanOf(keys, values, r[k].key)
    ensures forall k, l :: 0 <= k < l < |r| && r[l].mean.Some? ==>
      r[k].mean.Some? && r[k].mean.value >= r[l].mean.value
  {
    assert KeysOf(r) == order;
    forall k, l | 0 <= k < l < |r| && r[l].mean.Some?
      ensures r[k].mean.Some? && r[k].mean.value >= r[l].mean.value
    {
      assert r[k].mean == MeanOf(keys, values, order[k]);
      assert r[l].mean == MeanOf(keys, values, order[l]);
    }
  }

  /** The result of `aggregate_by`: group sizes, group means, or another
      pandas aggregation of every column, which is not modelled. */
  datatype Aggregate =
    | Sizes(sizes: seq<Tally<Cell>>)
    | Means(means: seq<GroupMean>)
    | OtherAgg(agg: string)

  /** `aggregate_by(column, agg, value_col)`: `"count"` gives the group
      sizes; `"mean"` with a non-empty `value_col` the group means of it;
      anything else is passed on to pandas as a per-column aggregation. */
  function AggregateBy(t: Table, column: string, agg: string, valueCol: Option<string>): (r: Result<Aggregate>)
    requires WellFormed(t)
    ensures agg == "count" ==> r == (match AggregateCount(t, column)
      case Ok(sizes) => Ok(Sizes(sizes))
      case Err(e) => Err(e))
    ensures agg == "mean" && valueCol.Some? && valueCol.value != "" ==>
      r == (match AggregateMean(t, column, valueCol.value)
        case Ok(means) => Ok(Means(means))
        case Err(e) => Err(e))
    ensures agg != "count" && !(agg == "mean" && valueCol.Some? && valueCol.value != "") ==>
      (r.Err? <==> column !in t.columns) &&
      (r.Err? ==> r.error == KeyError(column)) &&
      (r.Ok? ==> r.value == OtherAgg(agg))
    ensures r.Err? <==> (column !in t.columns || (agg == "mean" && valueCol.Some? && valueCol.value != "" &&
      (valueCol.value !in t.columns || !GroupedNumeric(Column(t, column), Column(t, valueCol.value)))))
  {
    if agg == "count" then
      match AggregateCount(t, column)
      case Ok(sizes) => Ok(Sizes(sizes))
      case Err(e) => Err(e)
    else if agg == "mean" && valueCol.Some? && valueCol.value != "" then
      match AggregateMean(t, column, valueCol.value)
      case Ok(means) => Ok(Means(means))
      case Err(e) => Err(e)
    else if column !in t.columns then Err(KeyError(column))
    else Ok(OtherAgg(agg))
  }

  /** `average_satisfaction_by_department`: an empty series when either
      column is missing, otherwise the department means of `satisfaction`,
      highest first. */
  function AverageSatisfactionByDepartment(t: Table): (r: Result<seq<GroupMean>>)
    requires WellFormed(t)
    ensures Satisfaction !in t.columns || Department !in t.columns ==> r == Ok([])
    ensures Satisfaction in t.columns && Department in t.columns ==>
      r == AggregateMean(t, Department, Satisfaction)
  {
    if Satisfaction !in t.columns || Department !in t.columns then Ok([])
    else AggregateMean(t, Department, Satisfaction)
  }

  /** After `clean_data`, a numeric column holds only numbers or missing cells. */
  lemma PreparedNumeric(u: Table, m: string)
    requires Prepared(u) && m in u.columns && FixOf(m) == Some(ParseNumber)
    ensures Numeric(Column(u, m))
  {
    var j := IndexOf(u.columns, m);
    forall k | 0 <= k < |u.rows| ensures Column(u, m)[k] == Missing || Column(u, m)[k].Number? {
      assert CellSettled(u.columns[j], u.rows[k][j]);
    }
  }

  /** On a cleaned table the department averages never fail: every
      department appears once, and `department` is never missing there, so
      every row's department appears. */
  lemma CleanedSatisfaction(u: Table)
    requires Prepared(u)
    ensures AverageSatisfactionByDepartment(u).Ok?
    ensures Satisfaction in u.columns && Department in u.columns ==>
      forall k :: 0 <= k < |u.rows| ==>
        Column(u, Department)[k] in KeysOf(AverageSatisfactionByDepartment(u).value)
  {
    if Satisfaction in u.columns && Department in u.columns {
      FixOfNames();
      PreparedNumeric(u, Satisfaction);
      var j := IndexOf(u.columns, Department);
      forall k | 0 <= k < |u.rows| ensures Column(u, Department)[k] != Missing {
        assert CellSettled(u.columns[j], u.rows[k][j]);
      }
    }
  }
}
