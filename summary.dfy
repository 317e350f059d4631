/** `summarize_outcomes`: outcome counts and shares, overall or per group. */
module Summary {
  import opened Seqs
  import opened Frame
  import opened Cleaning

  /** One line of `value_counts` next to its line of the share table. */
  datatype Share = Share(value: Cell, count: nat, fraction: real)

  function Values(r: seq<Share>): seq<Cell> {
    seq(|r|, k requires 0 <= k < |r| => r[k].value)
  }

  function SumCounts(r: seq<Share>): nat {
    if r == [] then 0 else r[0].count + SumCounts(r[1..])
  }

  function SumFractions(r: seq<Share>): real {
    if r == [] then 0.0 else r[0].fraction + SumFractions(r[1..])
  }

  /** Each count next to its share of `n` cells. */
  function SharesOf(vc: seq<Tally<Cell>>, n: nat): (r: seq<Share>)
    requires n > 0
    ensures |r| == |vc|
    ensures forall k :: 0 <= k < |r| ==>
      r[k] == Share(vc[k].key, vc[k].size, vc[k].size as real / n as real)
  {
    seq(|vc|, k requires 0 <= k < |vc| => Share(vc[k].key, vc[k].size, vc[k].size as real / n as real))
  }

  /** `counts = s.value_counts(dropna=False)` and `pct = counts / counts.sum()`:
      every distinct value once, a missing value included, most frequent
      first, each with its count and its share of all cells. */
  function Shares(cells: seq<Cell>): (r: seq<Share>)
    ensures cells == [] ==> r == []
    ensures NoDups(Values(r))
    ensures forall x :: x in cells ==> x in Values(r)
    ensures forall x :: x in Values(r) ==> x in cells
    ensures forall k :: 0 <= k < |r| ==>
      r[k].count == Count(cells, r[k].value) && |cells| > 0 &&
      r[k].fraction == r[k].count as real / |cells| as real
    ensures forall k, l :: 0 <= k < l < |r| ==> r[k].count >= r[l].count
  {
    if cells == [] then []
    else
      var vc := ValueCounts(cells);
      var r := SharesOf(vc, |cells|);
      assert Values(r) == Keys(vc);
      r
  }

  lemma DivAdd(a: real, b: real, n: real)
    requires n > 0.0
    ensures a / n + b / n == (a + b) / n
  {
  }

  lemma DivSelf(n: real)
    requires n > 0.0
    ensures n / n == 1.0
  {
  }

  lemma {:induction false} SumFractionsScaled(r: seq<Share>, n: nat)
    requires n > 0
    requires forall k :: 0 <= k < |r| ==> r[k].fraction == r[k].count as real / n as real
    ensures SumFractions(r) == SumCounts(r) as real / n as real
  {
    if r != [] {
      SumFractionsScaled(r[1..], n);
      DivAdd(r[0].count as real, SumCounts(r[1..]) as real, n as real);
    }
  }

  lemma {:induction false} SumCountsOfTallies(r: seq<Share>, vc: seq<Tally<Cell>>)
    requires |r| == |vc| && forall k :: 0 <= k < |r| ==> r[k].count == vc[k].size
    ensures SumCounts(r) == SumSizes(vc)
  {
    if r != [] {
      SumCountsOfTallies(r[1..], vc[1..]);
    }
  }

  lemma SharesOfTotal(vc: seq<Tally<Cell>>, n: nat)
    requires n > 0
    ensures SumCounts(SharesOf(vc, n)) == SumSizes(vc)
    ensures SumFractions(SharesOf(vc, n)) == SumSizes(vc) as real / n as real
  {
    var r := SharesOf(vc, n);
    SumCountsOfTallies(r, vc);
    SumFractionsScaled(r, n);
  }

  /** The counts add up to the number of cells and the shares to one. */
  lemma SharesTotal(cells: seq<Cell>)
    requires cells != []
    ensures SumCounts(Shares(cells)) == |cells|
    ensures SumFractions(Shares(cells)) == 1.0
  {
    var vc := ValueCounts(cells);
    assert Shares(cells) == SharesOf(vc, |cells|);
    ValueCountsTotal(cells);
    SharesOfTotal(vc, |cells|);
    DivSelf(|cells| as real);
  }

  // ---------------------------------------------------------------- per group

  /** The (group, outcome) pair of every row where both are present: the
      rows `groupby(by)["outcome"].value_counts()` counts. */
  function Pairs(groups: seq<Cell>, outcomes: seq<Cell>): (r: seq<(Cell, Cell)>)
    requires |groups| == |outcomes|
    ensures forall x :: x in r ==> x.0 != Missing && x.1 != Missing
    ensures forall i :: 0 <= i < |groups| && groups[i] != Missing && outcomes[i] != Missing ==>
      (groups[i], outcomes[i]) in r
  {
    if groups == [] then []
    else
      var n := |groups| - 1;
      var rest := Pairs(groups[..n], outcomes[..n]);
      rest + (if groups[n] != Missing && outcomes[n] != Missing then [(groups[n], outcomes[n])] else [])
  }

  /** `value_counts` sees each (group, outcome) pair as often as rows carry
      it, and never a pair with a missing side. */
  lemma {:induction false} PairsCount(groups: seq<Cell>, outcomes: seq<Cell>, g: Cell, o: Cell)
    requires |groups| == |outcomes|
    ensures Count(Pairs(groups, outcomes), (g, o)) ==
      if g == Missing || o == Missing then 0 else Count(Zip(groups, outcomes), (g, o))
  {
    if groups != [] {
      var n := |groups| - 1;
      PairsCount(groups[..n], outcomes[..n], g, o);
      ZipInit(groups, outcomes);
      CountAppend(Zip(groups[..n], outcomes[..n]), (groups[n], outcomes[n]), (g, o));
      var rest := Pairs(groups[..n], outcomes[..n]);
      if groups[n] != Missing && outcomes[n] != Missing {
        CountAppend(rest, (groups[n], outcomes[n]), (g, o));
      } else {
        assert Pairs(groups, outcomes) == rest + [];
        assert rest + [] == rest;
      }
    }
  }

  function Firsts(pairs: seq<(Cell, Cell)>): (r: seq<Cell>)
    ensures |r| == |pairs| && forall k :: 0 <= k < |r| ==> r[k] == pairs[k].0
  {
    seq(|pairs|, k requires 0 <= k < |pairs| => pairs[k].0)
  }

  function Seconds(pairs: seq<(Cell, Cell)>): (r: seq<Cell>)
    ensures |r| == |pairs| && forall k :: 0 <= k < |r| ==> r[k] == pairs[k].1
  {
    seq(|pairs|, k requires 0 <= k < |pairs| => pairs[k].1)
  }

  /** The outcomes of the group `g`, in row order. */
  function OutcomesOf(pairs: seq<(Cell, Cell)>, g: Cell): (r: seq<Cell>)
    ensures forall o :: o in r ==> (g, o) in pairs
    ensures g in Firsts(pairs) ==> r != []
  {
    if pairs == [] then []
    else
      var n := |pairs| - 1;
      var rest := OutcomesOf(pairs[..n], g);
      assert forall k :: 0 <= k < n ==> Firsts(pairs)[k] == Firsts(pairs[..n])[k];
      rest + (if pairs[n].0 == g then [pairs[n].1] else [])
  }

  /** A group's count of outcome `o` is the number of rows with that group
      and that outcome. */
  lemma {:induction false} OutcomesOfCount(pairs: seq<(Cell, Cell)>, g: Cell, o: Cell)
    ensures Count(OutcomesOf(pairs, g), o) == Count(pairs, (g, o))
  {
    if pairs != [] {
      var n := |pairs| - 1;
      OutcomesOfCount(pairs[..n], g, o);
      assert pairs == pairs[..n] + [pairs[n]];
      CountAppend(pairs[..n], pairs[n], (g, o));
      assert OutcomesOf(pairs, g) ==
        OutcomesOf(pairs[..n], g) + (if pairs[n].0 == g then [pairs[n].1] else []);
      if pairs[n].0 == g {
        CountAppend(OutcomesOf(pairs[..n], g), pairs[n].1, o);
        assert pairs[n] == (g, o) <==> pairs[n].1 == o;
      } else {
        assert pairs[n] != (g, o);
        assert OutcomesOf(pairs, g) == OutcomesOf(pairs[..n], g);
      }
    }
  }

  /** One row of `grouped` (counts, with `fill_value=0`) and of
      `grouped_pct` (counts over the row total). */
  datatype GroupRow = GroupRow(group: Cell, counts: seq<Tally<Cell>>, fractions: seq<real>)

  /** The unstacked table: one column per outcome, one row per group. */
  datatype Crosstab = Crosstab(outcomes: seq<Cell>, rows: seq<GroupRow>)

  function Groups(t: Crosstab): seq<Cell> {
    seq(|t.rows|, i requires 0 <= i < |t.rows| => t.rows[i].group)
  }

  function Row(pairs: seq<(Cell, Cell)>, outcomes: seq<Cell>, g: Cell): (row: GroupRow)
    requires g in Firsts(pairs)
  {
    var mine := OutcomesOf(pairs, g);
    var counts := Tallies(mine, outcomes);
    GroupRow(g, counts, seq(|counts|, j requires 0 <= j < |counts| => counts[j].size as real / |mine| as real))
  }

  /** Groups and outcome columns in order of first appearance. */
  function Crosstabulate(pairs: seq<(Cell, Cell)>): (t: Crosstab)
    ensures NoDups(t.outcomes) && NoDups(Groups(t))
    ensures forall i :: 0 <= i < |t.rows| ==>
      t.rows[i].group in Firsts(pairs) && t.rows[i] == Row(pairs, t.outcomes, t.rows[i].group)
  {
    var groups := Distinct(Firsts(pairs));
    var outcomes := Distinct(Seconds(pairs));
    var rows := seq(|groups|, i requires 0 <= i < |groups| => Row(pairs, outcomes, groups[i]));
    var t := Crosstab(outcomes, rows);
    assert Groups(t) == groups;
    t
  }

  /** Every group and every outcome of a counted row has its row and its
      column, and nothing else does. */
  lemma CrosstabCovers(pairs: seq<(Cell, Cell)>)
    ensures var t := Crosstabulate(pairs);
      (forall x :: x in pairs ==> x.0 in Groups(t) && x.1 in t.outcomes) &&
      (forall g :: g in Groups(t) ==> g in Firsts(pairs)) &&
      (forall o :: o in t.outcomes ==> o in Seconds(pairs))
  {
    var t := Crosstabulate(pairs);
    assert t.outcomes == Distinct(Seconds(pairs));
    assert Groups(t) == Distinct(Firsts(pairs));
    forall x | x in pairs ensures x.0 in Groups(t) && x.1 in t.outcomes {
      var k :| 0 <= k < |pairs| && pairs[k] == x;
      assert Firsts(pairs)[k] == x.0 && Seconds(pairs)[k] == x.1;
    }
  }

  /** The cell of group row `i` under outcome column `j` counts the rows
      with that group and that outcome. */
  lemma CrosstabCounts(pairs: seq<(Cell, Cell)>, i: int, j: int)
    requires var t := Crosstabulate(pairs); 0 <= i < |t.rows| && 0 <= j < |t.outcomes|
    ensures var t := Crosstabulate(pairs);
      |t.rows[i].counts| == |t.rows[i].fractions| == |t.outcomes| &&
      t.rows[i].counts[j].key == t.outcomes[j] &&
      t.rows[i].counts[j].size == Count(pairs, (t.rows[i].group, t.outcomes[j]))
  {
    var t := Crosstabulate(pairs);
    var g := t.rows[i].group;
    OutcomesOfCount(pairs, g, t.outcomes[j]);
  }

  /** Every group has at least one row, its counts add up to its number of
      rows, and its shares add up to one. */
  lemma CrosstabRowTotals(pairs: seq<(Cell, Cell)>, i: int)
    requires 0 <= i < |Crosstabulate(pairs).rows|
    ensures var row := Crosstabulate(pairs).rows[i];
      var total := |OutcomesOf(pairs, row.group)|;
      total >= 1 && SumSizes(row.counts) == total &&
      (forall j :: 0 <= j < |row.fractions| ==> row.fractions[j] == row.counts[j].size as real / total as real) &&
      Sum(row.fractions) == 1.0
  {
    var t := Crosstabulate(pairs);
    var row := t.rows[i];
    var g := row.group;
    var mine := OutcomesOf(pairs, g);
    assert g in Firsts(pairs);
    assert row == Row(pairs, t.outcomes, g);
    forall o | o in mine ensures o in t.outcomes {
      assert (g, o) in pairs;
    }
    TalliesCoverAll(mine, t.outcomes);
    SumScaled(row.counts, row.fractions, |mine|);
    DivSelf(|mine| as real);
  }

  lemma {:induction false} SumScaled(counts: seq<Tally<Cell>>, fractions: seq<real>, n: nat)
    requires n > 0 && |counts| == |fractions|
    requires forall j :: 0 <= j < |fractions| ==> fractions[j] == counts[j].size as real / n as real
    ensures Sum(fractions) == SumSizes(counts) as real / n as real
  {
    if counts != [] {
      assert forall j :: 0 <= j < |fractions[1..]| ==> fractions[1..][j] == counts[1..][j].size as real / n as real by {
        forall j | 0 <= j < |fractions[1..]| ensures fractions[1..][j] == counts[1..][j].size as real / n as real {
          assert fractions[1..][j] == fractions[j + 1] && counts[1..][j] == counts[j + 1];
        }
      }
      SumScaled(counts[1..], fractions[1..], n);
      DivAdd(counts[0].size as real, SumSizes(counts[1..]) as real, n as real);
    }
  }

  // ---------------------------------------------------------------- the query

  datatype Summary = Overall(shares: seq<Share>) | ByGroup(table: Crosstab)

  /** `summarize_outcomes(by)`: with no grouping column (`None` or the empty
      name, both falsy) the shares of every outcome over all rows; with one,
      the outcome-key-group table. A missing grouping column or `outcome`
      column is a `KeyError`, the grouping column first. */
  function SummarizeOutcomes(t: Table, key: Option<string>): (r: Result<Summary>)
    requires WellFormed(t)
    ensures (key == None || key == Some("")) ==>
      (r.Err? <==> Outcome !in t.columns) &&
      (r.Err? ==> r.error == KeyError(Outcome)) &&
      (r.Ok? ==> r == Ok(Overall(Shares(Column(t, Outcome)))))
    ensures key.Some? && key.value != "" ==>
      (r.Err? <==> key.value !in t.columns || Outcome !in t.columns) &&
      (key.value !in t.columns ==> r == Err(KeyError(key.value))) &&
      (key.value in t.columns && Outcome !in t.columns ==> r == Err(KeyError(Outcome))) &&
      (r.Ok? ==> r == Ok(ByGroup(Crosstabulate(Pairs(Column(t, key.value), Column(t, Outcome))))))
  {
    if key == None || key == Some("") then
      if Outcome !in t.columns then Err(KeyError(Outcome))
      else Ok(Overall(Shares(Column(t, Outcome))))
    else if key.value !in t.columns then Err(KeyError(key.value))
    else if Outcome !in t.columns then Err(KeyError(Outcome))
    else Ok(ByGroup(Crosstabulate(Pairs(Column(t, key.value), Column(t, Outcome)))))
  }
}
