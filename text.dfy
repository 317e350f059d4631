/** Python's `str.strip()` and `str.lower()` on ASCII text, as used for column
    names (`c.strip().lower()`) and outcome labels (`.str.lower().str.strip()`). */
module Text {

  /** Whitespace that `str.strip()` removes, restricted to ASCII:
      tab, line feed, vertical tab, form feed, carriage return,
      the four information separators 0x1C-0x1F, and space. */
  predicate IsSpace(c: char) {
    c == ' ' || (9 as char <= c <= 13 as char) || (28 as char <= c <= 31 as char)
  }

  predicate IsUpper(c: char) {
    'A' <= c <= 'Z'
  }

  function LowerChar(c: char): char {
    if IsUpper(c) then (c as int + 32) as char else c
  }

  lemma LowerCharNotUpper(c: char)
    ensures !IsUpper(LowerChar(c))
    ensures IsSpace(LowerChar(c)) == IsSpace(c)
  {
  }

  function Lower(s: string): string {
    seq(|s|, i requires 0 <= i < |s| => LowerChar(s[i]))
  }

  /** Drops leading whitespace: the result is a suffix of `s`, everything
      dropped is whitespace, and the result does not start with whitespace. */
  function TrimLeft(s: string): (r: string)
    ensures |r| <= |s| && r == s[|s| - |r|..]
    ensures forall k :: 0 <= k < |s| - |r| ==> IsSpace(s[k])
    ensures r == [] || !IsSpace(r[0])
  {
    if |s| > 0 && IsSpace(s[0]) then TrimLeft(s[1..]) else s
  }

  /** Drops trailing whitespace: the result is a prefix of `s`, everything
      dropped is whitespace, and the result does not end with whitespace. */
  function TrimRight(s: string): (r: string)
    ensures |r| <= |s| && r == s[..|r|]
    ensures forall k :: |r| <= k < |s| ==> IsSpace(s[k])
    ensures r == [] || !IsSpace(r[|r| - 1])
  {
    if |s| > 0 && IsSpace(s[|s| - 1]) then TrimRight(s[..|s| - 1]) else s
  }

  function Strip(s: string): string {
    TrimRight(TrimLeft(s))
  }

  /** No ASCII capital letter. */
  predicate NoUpper(s: string) {
    forall i :: 0 <= i < |s| ==> !IsUpper(s[i])
  }

  /** The normal form both cleaning rules produce: no ASCII capital letter,
      no whitespace at either end. */
  predicate IsNormal(s: string) {
    NoUpper(s) && (s == [] || (!IsSpace(s[0]) && !IsSpace(s[|s| - 1])))
  }

  /** Column names: `c.strip().lower()`. */
  function NormalizeName(s: string): string {
    Lower(Strip(s))
  }

  /** Outcome labels: `.str.lower().str.strip()`. */
  function NormalizeLabel(s: string): string {
    Strip(Lower(s))
  }

  /** `Strip(s)` is the slice of `s` between the whitespace it drops. */
  lemma StripSlice(s: string, l: string, t: string)
    requires l == TrimLeft(s) && t == Strip(s)
    ensures t == s[|s| - |l|..|s| - |l| + |t|]
  {
    SliceOfSlice(s, l, t);
  }

  /** A prefix of a suffix is a slice. */
  lemma SliceOfSlice(s: string, l: string, r: string)
    requires |l| <= |s| && l == s[|s| - |l|..]
    requires |r| <= |l| && r == l[..|r|]
    ensures r == s[|s| - |l|..|s| - |l| + |r|]
  {
  }

  lemma StripKeepsInner(s: string)
    ensures exists i, j :: 0 <= i <= j <= |s| && Strip(s) == s[i..j]
  {
    StripSlice(s, TrimLeft(s), Strip(s));
  }

  /** A stripped string neither starts nor ends with whitespace. */
  lemma StripEnds(s: string)
    ensures var t := Strip(s); t == [] || (!IsSpace(t[0]) && !IsSpace(t[|t| - 1]))
  {
    var m := TrimLeft(s);
    var t := TrimRight(m);
    if t != [] {
      assert t == m[..|t|];
      assert t[0] == m[0];
    }
  }

  lemma LowerNoUpper(s: string)
    ensures NoUpper(Lower(s))
  {
    forall k | 0 <= k < |s| ensures !IsUpper(Lower(s)[k]) {
      LowerCharNotUpper(s[k]);
    }
  }

  lemma NoUpperSlice(s: string, i: int, j: int)
    requires NoUpper(s) && 0 <= i <= j <= |s|
    ensures NoUpper(s[i..j])
  {
    forall k | 0 <= k < j - i ensures !IsUpper(s[i..j][k]) {
      assert s[i..j][k] == s[i + k];
    }
  }

  /** A cleaned column name is in normal form. */
  lemma NormalizeNameIsNormal(s: string)
    ensures IsNormal(NormalizeName(s))
  {
    var t := Strip(s);
    var r := Lower(t);
    StripEnds(s);
    LowerNoUpper(t);
    if r != [] {
      LowerCharNotUpper(t[0]);
      LowerCharNotUpper(t[|t| - 1]);
      assert r[0] == LowerChar(t[0]) && r[|r| - 1] == LowerChar(t[|t| - 1]);
    }
  }

  /** A cleaned outcome label is in normal form. */
  lemma NormalizeLabelIsNormal(s: string)
    ensures IsNormal(NormalizeLabel(s))
  {
    var l := Lower(s);
    LowerNoUpper(s);
    var m := TrimLeft(l);
    var t := Strip(l);
    StripSlice(l, m, t);
    NoUpperSlice(l, |l| - |m|, |l| - |m| + |t|);
    StripEnds(l);
  }

  lemma StripFixesNormal(s: string)
    requires s == [] || (!IsSpace(s[0]) && !IsSpace(s[|s| - 1]))
    ensures Strip(s) == s
  {
  }

  lemma {:induction false} LowerFixesNormal(s: string)
    requires forall i :: 0 <= i < |s| ==> !IsUpper(s[i])
    ensures Lower(s) == s
  {
    assert forall i :: 0 <= i < |s| ==> Lower(s)[i] == s[i];
  }

  /** Normalizing a name that is already normal changes nothing: cleaning
      the column names twice is the same as once. */
  lemma NormalizeNameFixesNormal(s: string)
    requires IsNormal(s)
    ensures NormalizeName(s) == s
  {
    StripFixesNormal(s);
    LowerFixesNormal(s);
  }

  lemma NormalizeLabelFixesNormal(s: string)
    requires IsNormal(s)
    ensures NormalizeLabel(s) == s
  {
    LowerFixesNormal(s);
    StripFixesNormal(s);
  }
}
