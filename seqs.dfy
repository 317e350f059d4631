/** The sequence operations pandas performs under the analyzer: keeping the
    first row per key (`drop_duplicates(keep="first")`), counting values
    (`value_counts`, `groupby(...).size()`) and ordering by a descending key
    (`sort_values(ascending=False)`). */
module Seqs {

  predicate NoDups<T(==)>(s: seq<T>) {
    forall i, j :: 0 <= i < j < |s| ==> s[i] != s[j]
  }

  lemma NoDupsAt<T>(s: seq<T>, i: int, j: int)
    ensures NoDups(s) && 0 <= i < j < |s| ==> s[i] != s[j]
  {
  }

  /** Number of occurrences of `x` in `s`. */
  function Count<T(==)>(s: seq<T>, x: T): (n: nat)
    ensures n <= |s|
    ensures n == 0 <==> x !in s
  {
    if s == [] then 0
    else Count(s[..|s| - 1], x) + (if s[|s| - 1] == x then 1 else 0)
  }

  lemma CountAppend<T>(s: seq<T>, y: T, x: T)
    ensures Count(s + [y], x) == Count(s, x) + (if y == x then 1 else 0)
  {
    assert (s + [y])[..|s|] == s;
  }

  /** The pairs `(a[i], b[i])`, row by row: what a two-column selection of
      a frame holds. */
  function Zip<A, B>(a: seq<A>, b: seq<B>): (r: seq<(A, B)>)
    requires |a| == |b|
    ensures |r| == |a| && forall i :: 0 <= i < |a| ==> r[i] == (a[i], b[i])
  {
    seq(|a|, i requires 0 <= i < |a| => (a[i], b[i]))
  }

  lemma ZipInit<A, B>(a: seq<A>, b: seq<B>)
    requires |a| == |b| && a != []
    ensures var n := |a| - 1; Zip(a, b) == Zip(a[..n], b[..n]) + [(a[n], b[n])]
  {
  }

  lemma {:induction false} CountOfDistinct<T>(d: seq<T>, x: T)
    requires NoDups(d) && x in d
    ensures Count(d, x) == 1
  {
    var last := d[|d| - 1];
    var init := d[..|d| - 1];
    assert d == init + [last];
    CountAppend(init, last, x);
    if last == x {
      assert x !in init;
    } else {
      CountOfDistinct(init, x);
    }
  }

  /** Position of the first occurrence of `x`. */
  function IndexOf<T(==)>(s: seq<T>, x: T): (i: nat)
    requires x in s
    ensures i < |s| && s[i] == x && x !in s[..i]
  {
    if s[0] == x then 0 else 1 + IndexOf(s[1..], x)
  }

  lemma IndexOfDistinct<T>(s: seq<T>, j: int)
    requires NoDups(s) && 0 <= j < |s|
    ensures IndexOf(s, s[j]) == j
  {
    var i := IndexOf(s, s[j]);
    if i != j {
      assert false;
    }
  }

  /** `s[i]` is the first occurrence of its value. */
  predicate IsFirst<T(==)>(s: seq<T>, i: int)
    requires 0 <= i < |s|
  {
    s[i] !in s[..i]
  }

  predicate Increasing(idx: seq<nat>) {
    forall k, l :: 0 <= k < l < |idx| ==> idx[k] < idx[l]
  }

  /** Positions of the first occurrences, in increasing order: exactly the
      positions whose value has not been seen before. */
  function FirstIndices<T(==)>(s: seq<T>): (idx: seq<nat>)
    ensures Increasing(idx)
    ensures forall k :: 0 <= k < |idx| ==> idx[k] < |s| && IsFirst(s, idx[k])
    ensures forall i :: 0 <= i < |s| && IsFirst(s, i) ==> i in idx
  {
    if s == [] then []
    else
      var init := s[..|s| - 1];
      var p := FirstIndices(init);
      assert forall i :: 0 <= i < |init| ==> init[..i] == s[..i];
      if IsFirst(s, |s| - 1) then p + [|s| - 1] else p
  }

  /** Each row is tagged with a key; the rows kept are the ones at `idx`, in
      order, and those are exactly the first rows seen for their key. */
  ghost predicate KeptFirst<R, K>(rows: seq<R>, keys: seq<K>, kept: seq<R>, idx: seq<nat>)
    requires |rows| == |keys|
  {
    |idx| == |kept| && Increasing(idx) &&
    (forall k :: 0 <= k < |idx| ==> idx[k] < |rows| && kept[k] == rows[idx[k]] && IsFirst(keys, idx[k])) &&
    (forall i :: 0 <= i < |rows| && IsFirst(keys, i) ==> i in idx)
  }

  /** `drop_duplicates(keep="first")`: keeps, in input order, the first row
      for every key and drops the later ones. */
  function KeepFirst<R, K(==)>(rows: seq<R>, keys: seq<K>): (kept: seq<R>)
    requires |rows| == |keys|
    ensures KeptFirst(rows, keys, kept, FirstIndices(keys))
  {
    var idx := FirstIndices(keys);
    seq(|idx|, k requires 0 <= k < |idx| => rows[idx[k]])
  }

  function KeysAt<K>(keys: seq<K>, idx: seq<nat>): seq<K>
    requires forall k :: 0 <= k < |idx| ==> idx[k] < |keys|
  {
    seq(|idx|, k requires 0 <= k < |idx| => keys[idx[k]])
  }

  /** Keys of the kept rows are pairwise different, and every key of the
      input is the key of some kept row. */
  lemma KeptFirstKeys<R, K>(rows: seq<R>, keys: seq<K>, kept: seq<R>, idx: seq<nat>)
    requires |rows| == |keys| && KeptFirst(rows, keys, kept, idx)
    ensures NoDups(KeysAt(keys, idx))
    ensures forall i :: 0 <= i < |keys| ==> keys[i] in KeysAt(keys, idx)
  {
    var ks := KeysAt(keys, idx);
    forall k, l | 0 <= k < l < |idx| ensures ks[k] != ks[l] {
      assert keys[idx[k]] == keys[..idx[l]][idx[k]];
    }
    forall i | 0 <= i < |keys| ensures keys[i] in ks {
      var j := IndexOf(keys, keys[i]);
      assert IsFirst(keys, j);
      assert j in idx;
      var k :| 0 <= k < |idx| && idx[k] == j;
      assert ks[k] == keys[i];
    }
  }

  /** With pairwise different keys every row is a first occurrence, so
      nothing is dropped. */
  lemma {:induction false} FirstIndicesOfDistinct<T>(s: seq<T>)
    requires NoDups(s)
    ensures FirstIndices(s) == seq(|s|, i => i)
  {
    if s != [] {
      var init := s[..|s| - 1];
      FirstIndicesOfDistinct(init);
      assert IsFirst(s, |s| - 1);
    }
  }

  lemma KeepFirstOfDistinct<R, K>(rows: seq<R>, keys: seq<K>)
    requires |rows| == |keys| && NoDups(keys)
    ensures KeepFirst(rows, keys) == rows
  {
    FirstIndicesOfDistinct(keys);
  }

  /** The distinct values of `s` in order of first appearance
      (the index of a `value_counts` or `groupby` result before sorting). */
  function Distinct<T(==)>(s: seq<T>): (d: seq<T>)
    ensures NoDups(d)
    ensures forall x :: x in d ==> x in s
    ensures forall x :: x in s ==> x in d
    ensures forall k, l :: 0 <= k < l < |d| ==> IndexOf(s, d[k]) < IndexOf(s, d[l])
  {
    var idx := FirstIndices(s);
    var d := seq(|idx|, k requires 0 <= k < |idx| => s[idx[k]]);
    assert NoDups(d) by {
      forall k, l | 0 <= k < l < |idx| ensures d[k] != d[l] {
        assert s[idx[k]] == s[..idx[l]][idx[k]];
      }
    }
    assert forall x :: x in s ==> x in d by {
      forall x | x in s ensures x in d {
        var j := IndexOf(s, x);
        assert IsFirst(s, j);
        var k :| 0 <= k < |idx| && idx[k] == j;
        assert d[k] == x;
      }
    }
    forall k | 0 <= k < |idx| ensures IndexOf(s, d[k]) == idx[k] {
      FirstIsIndexOf(s, idx[k]);
    }
    d
  }

  lemma FirstIsIndexOf<T>(s: seq<T>, i: int)
    requires 0 <= i < |s| && IsFirst(s, i)
    ensures IndexOf(s, s[i]) == i
  {
    var j := IndexOf(s, s[i]);
    if j != i {
      assert false;
    }
  }

  /** The elements of `s` that satisfy `f`, in order. */
  function Filter<T>(s: seq<T>, f: T -> bool): (r: seq<T>)
    ensures forall x :: x in r ==> x in s && f(x)
    ensures forall x :: x in s && f(x) ==> x in r
  {
    if s == [] then []
    else
      assert s == [s[0]] + s[1..];
      (if f(s[0]) then [s[0]] else []) + Filter(s[1..], f)
  }

  lemma {:induction false} FilterNoDups<T>(s: seq<T>, f: T -> bool)
    requires NoDups(s)
    ensures NoDups(Filter(s, f))
  {
    if s != [] {
      var rest := Filter(s[1..], f);
      FilterNoDups(s[1..], f);
      if f(s[0]) {
        assert s[0] !in s[1..];
        var r := [s[0]] + rest;
        forall i, j | 0 <= i < j < |r| ensures r[i] != r[j] {
          assert r[j] == rest[j - 1];
          if i > 0 {
            assert r[i] == rest[i - 1];
          }
        }
      }
    }
  }

  /** Every key in `s` is at least every key after it. */
  predicate NonIncreasing<T>(s: seq<T>, key: T -> real) {
    forall i, j :: 0 <= i < j < |s| ==> key(s[i]) >= key(s[j])
  }

  function Insert<T>(x: T, s: seq<T>, key: T -> real): (r: seq<T>)
    ensures multiset(r) == multiset(s) + multiset{x}
  {
    if s == [] then [x]
    else if key(x) >= key(s[0]) then [x] + s
    else
      assert s == [s[0]] + s[1..];
      [s[0]] + Insert(x, s[1..], key)
  }

  lemma {:induction false} InsertMembers<T>(x: T, s: seq<T>, key: T -> real)
    ensures forall y :: y in Insert(x, s, key) ==> y == x || y in s
  {
    if s != [] && key(x) < key(s[0]) {
      InsertMembers(x, s[1..], key);
    }
  }

  lemma {:induction false} InsertSorted<T>(x: T, s: seq<T>, key: T -> real)
    requires NonIncreasing(s, key)
    ensures NonIncreasing(Insert(x, s, key), key)
  {
    if s == [] {
    } else if key(x) >= key(s[0]) {
      HeadFirst(s, key);
      ConsSorted(x, s, key);
    } else {
      var tail := s[1..];
      InsertSorted(x, tail, key);
      InsertMembers(x, tail, key);
      HeadFirst(s, key);
      ConsSorted(s[0], Insert(x, tail, key), key);
    }
  }

  /** The head of a non-increasing sequence has the largest key. */
  lemma HeadFirst<T>(s: seq<T>, key: T -> real)
    requires NonIncreasing(s, key) && s != []
    ensures forall y :: y in s ==> key(s[0]) >= key(y)
    ensures NonIncreasing(s[1..], key)
  {
    forall y | y in s ensures key(s[0]) >= key(y) {
      var m :| 0 <= m < |s| && s[m] == y;
    }
    forall i, j | 0 <= i < j < |s| - 1 ensures key(s[1..][i]) >= key(s[1..][j]) {
      assert s[1..][i] == s[i + 1] && s[1..][j] == s[j + 1];
    }
  }

  /** A key at least every key of a non-increasing sequence can go in front. */
  lemma ConsSorted<T>(h: T, r: seq<T>, key: T -> real)
    requires NonIncreasing(r, key) && forall y :: y in r ==> key(h) >= key(y)
    ensures NonIncreasing([h] + r, key)
  {
    var c := [h] + r;
    forall i, j | 0 <= i < j < |c| ensures key(c[i]) >= key(c[j]) {
      assert c[j] == r[j - 1];
      if i > 0 {
        assert c[i] == r[i - 1];
      }
    }
  }

  lemma {:induction false} InsertNoDups<T>(x: T, s: seq<T>, key: T -> real)
    requires x !in s && NoDups(s)
    ensures NoDups(Insert(x, s, key))
  {
    if s == [] {
    } else if key(x) >= key(s[0]) {
      ConsNoDups(x, s);
    } else {
      var tail := s[1..];
      HeadTailNoDups(s);
      InsertNoDups(x, tail, key);
      InsertMembers(x, tail, key);
      assert s[0] != x;
      ConsNoDups(s[0], Insert(x, tail, key));
    }
  }

  lemma ConsNoDups<T>(x: T, s: seq<T>)
    requires x !in s && NoDups(s)
    ensures NoDups([x] + s)
  {
    var r := [x] + s;
    forall i, j | 0 <= i < j < |r| ensures r[i] != r[j] {
      if i > 0 { assert r[i] == s[i-1] && r[j] == s[j-1]; }
      else { assert r[j] == s[j-1]; }
    }
  }

  lemma HeadTailNoDups<T>(s: seq<T>)
    requires s != [] && NoDups(s)
    ensures NoDups(s[1..]) && s[0] !in s[1..]
  {
    var tail := s[1..];
    forall i, j | 0 <= i < j < |tail| ensures tail[i] != tail[j] {
      assert tail[i] == s[i + 1] && tail[j] == s[j + 1];
    }
    forall i | 0 <= i < |tail| ensures tail[i] != s[0] {
      assert tail[i] == s[i + 1];
    }
  }

  /** `sort_values(ascending=False)`: a permutation of `s`, largest key first.
      Which of two equal keys comes first is not specified by the source. */
  function SortDesc<T>(s: seq<T>, key: T -> real): (r: seq<T>)
    ensures NonIncreasing(r, key)
    ensures multiset(r) == multiset(s)
  {
    if s == [] then []
    else
      var rest := SortDesc(s[1..], key);
      InsertSorted(s[0], rest, key);
      assert s == [s[0]] + s[1..];
      Insert(s[0], rest, key)
  }

  lemma {:induction false} SortDescNoDups<T>(s: seq<T>, key: T -> real)
    requires NoDups(s)
    ensures NoDups(SortDesc(s, key))
  {
    if s != [] {
      var tail := s[1..];
      assert s == [s[0]] + tail;
      var rest := SortDesc(tail, key);
      SortDescNoDups(tail, key);
      assert s[0] !in rest by {
        assert s[0] !in multiset(tail);
      }
      InsertNoDups(s[0], rest, key);
    }
  }

  /** One count per value: the `size` of value `key` is its number of
      occurrences. */
  datatype Tally<T> = Tally(key: T, size: nat)

  function Keys<T>(r: seq<Tally<T>>): seq<T> {
    seq(|r|, k requires 0 <= k < |r| => r[k].key)
  }

  function SumSizes<T>(r: seq<Tally<T>>): nat {
    if r == [] then 0 else r[0].size + SumSizes(r[1..])
  }

  /** The count of every value of `d` in `s`, in the order of `d`. */
  function Tallies<T(==)>(s: seq<T>, d: seq<T>): (r: seq<Tally<T>>)
    ensures |r| == |d| && Keys(r) == d
    ensures forall k :: 0 <= k < |r| ==> r[k].key == d[k] && r[k].size == Count(s, d[k])
  {
    if d == [] then []
    else [Tally(d[0], Count(s, d[0]))] + Tallies(s, d[1..])
  }

  lemma {:induction false} TalliesAppend<T>(s: seq<T>, y: T, d: seq<T>)
    ensures SumSizes(Tallies(s + [y], d)) == SumSizes(Tallies(s, d)) + Count(d, y)
  {
    if d != [] {
      TalliesAppend(s, y, d[1..]);
      CountAppend(s, y, d[0]);
      assert d == [d[0]] + d[1..];
      CountFront(d[0], d[1..], y);
    }
  }

  lemma {:induction false} CountFront<T>(x: T, s: seq<T>, y: T)
    ensures Count([x] + s, y) == (if x == y then 1 else 0) + Count(s, y)
    decreases |s|
  {
    if s != [] {
      var init := s[..|s| - 1];
      assert [x] + s == ([x] + init) + [s[|s| - 1]];
      CountAppend([x] + init, s[|s| - 1], y);
      CountAppend(init, s[|s| - 1], y);
      assert s == init + [s[|s| - 1]];
      CountFront(x, init, y);
    }
  }

  /** When `d` lists pairwise different values covering all of `s`, the
      counts add up to the length of `s`: every element is counted once. */
  lemma {:induction false} TalliesCoverAll<T>(s: seq<T>, d: seq<T>)
    requires NoDups(d)
    requires forall x :: x in s ==> x in d
    ensures SumSizes(Tallies(s, d)) == |s|
  {
    if s == [] {
      TalliesOfEmpty(d);
    } else {
      var init := s[..|s| - 1];
      var y := s[|s| - 1];
      assert s == init + [y];
      TalliesCoverAll(init, d);
      TalliesAppend(init, y, d);
      CountOfDistinct(d, y);
    }
  }

  lemma {:induction false} TalliesOfEmpty<T>(d: seq<T>)
    ensures SumSizes(Tallies([], d)) == 0
  {
    if d != [] {
      TalliesOfEmpty(d[1..]);
    }
  }

  /** The distinct values of `s`, most frequent first. */
  function ByFrequency<T(==)>(s: seq<T>): (d: seq<T>)
    ensures NoDups(d)
    ensures forall x :: x in d ==> x in s
    ensures forall x :: x in s ==> x in d
    ensures forall k, l :: 0 <= k < l < |d| ==> Count(s, d[k]) >= Count(s, d[l])
  {
    var key := x => Count(s, x) as real;
    var u := Distinct(s);
    var d := SortDesc(u, key);
    SortDescNoDups(u, key);
    SortDescMembers(u, key, d);
    forall k, l | 0 <= k < l < |d| ensures Count(s, d[k]) >= Count(s, d[l]) {
      assert key(d[k]) >= key(d[l]);
    }
    d
  }

  /** Sorting keeps exactly the members it was given. */
  lemma SortDescMembers<T>(s: seq<T>, key: T -> real, r: seq<T>)
    requires r == SortDesc(s, key)
    ensures forall x :: x in r ==> x in s
    ensures forall x :: x in s ==> x in r
  {
    forall x ensures x in r <==> x in s {
      assert x in r <==> x in multiset(r);
      assert x in s <==> x in multiset(s);
    }
  }

  /** `value_counts()`: every distinct value once with its number of
      occurrences, most frequent first. */
  function ValueCounts<T(==)>(s: seq<T>): (r: seq<Tally<T>>)
    ensures NoDups(Keys(r))
    ensures forall x :: x in Keys(r) ==> x in s
    ensures forall x :: x in s ==> x in Keys(r)
    ensures forall k :: 0 <= k < |r| ==> r[k].size == Count(s, r[k].key)
    ensures forall k, l :: 0 <= k < l < |r| ==> r[k].size >= r[l].size
  {
    Tallies(s, ByFrequency(s))
  }

  /** The counts of `value_counts()` add up to the number of values. */
  lemma ValueCountsTotal<T>(s: seq<T>)
    ensures SumSizes(ValueCounts(s)) == |s|
  {
    var r := ValueCounts(s);
    TalliesCoverAll(s, Keys(r));
    assert Tallies(s, Keys(r)) == r;
  }

  /** The integers lo, lo+1, ..., hi-1. */
  function Range(lo: int, hi: int): (r: seq<int>)
    requires lo <= hi
    ensures |r| == hi - lo
    ensures forall k :: 0 <= k < |r| ==> r[k] == lo + k
  {
    seq(hi - lo, k requires 0 <= k < hi - lo => lo + k)
  }

  function Min(s: seq<int>): (m: int)
    requires |s| > 0
    ensures m in s && forall x :: x in s ==> m <= x
  {
    if |s| == 1 then s[0]
    else
      var m := Min(s[1..]);
      assert forall x :: x in s ==> x == s[0] || x in s[1..];
      if s[0] <= m then s[0] else m
  }

  function Max(s: seq<int>): (m: int)
    requires |s| > 0
    ensures m in s && forall x :: x in s ==> x <= m
  {
    if |s| == 1 then s[0]
    else
      var m := Max(s[1..]);
      assert forall x :: x in s ==> x == s[0] || x in s[1..];
      if s[0] >= m then s[0] else m
  }

  function Sum(s: seq<real>): real {
    if s == [] then 0.0 else s[0] + Sum(s[1..])
  }
}
