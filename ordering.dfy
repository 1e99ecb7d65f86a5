/**
 The two list operations the dashboard applies to a column of names:
 pandas' `Series.unique()` (distinct values in order of first appearance) and
 Python's `sorted()` on strings, which compares them lexicographically by code
 point, a proper prefix coming first.
 */
module Ordering {

  /** Python's `a < b` on `str`. */
  predicate Less(a: string, b: string) {
    if a == [] then b != []
    else if b == [] then false
    else if a[0] == b[0] then Less(a[1..], b[1..])
    else a[0] < b[0]
  }

  lemma {:induction false} LessIrreflexive(a: string)
    ensures !Less(a, a)
  {
    if a != [] {
      LessIrreflexive(a[1..]);
    }
  }

  lemma {:induction false} LessTransitive(a: string, b: string, c: string)
    requires Less(a, b) && Less(b, c)
    ensures Less(a, c)
  {
    if a != [] && b != [] && c != [] && a[0] == b[0] == c[0] {
      LessTransitive(a[1..], b[1..], c[1..]);
    }
  }

  /** Any two different strings are ordered one way or the other. */
  lemma {:induction false} LessTotal(a: string, b: string)
    requires a != b
    ensures Less(a, b) || Less(b, a)
  {
    if a != [] && b != [] && a[0] == b[0] {
      assert a == [a[0]] + a[1..] && b == [b[0]] + b[1..];
      LessTotal(a[1..], b[1..]);
    }
  }

  predicate StrictlySorted(s: seq<string>) {
    forall i, j :: 0 <= i < j < |s| ==> Less(s[i], s[j])
  }

  predicate NoDuplicates<T(==)>(s: seq<T>) {
    forall i, j :: 0 <= i < j < |s| ==> s[i] != s[j]
  }

  /** `pd.Series(s).unique()`: each value of `s` once. The body keeps them in
      order of first occurrence; the contract states only which values appear
      (EditChoicesAfterAppend states the order for the edit choices). */
  function Distinct(s: seq<string>): (r: seq<string>)
    ensures NoDuplicates(r)
    ensures forall x :: x in r <==> x in s
  {
    if s == [] then []
    else
      var d := Distinct(s[..|s| - 1]);
      var x := s[|s| - 1];
      assert s == s[..|s| - 1] + [x];
      if x in d then d else d + [x]
  }

  /** Inserts `x` into a strictly sorted sequence that does not contain it. */
  function Insert(x: string, s: seq<string>): (r: seq<string>)
    requires StrictlySorted(s) && x !in s
    ensures StrictlySorted(r)
    ensures |r| == |s| + 1
    ensures forall y :: y in r <==> y == x || y in s
  {
    if s == [] then [x]
    else if Less(x, s[0]) then
      assert forall j :: 0 < j < |s| ==> Less(x, s[j]) by {
        forall j | 0 < j < |s| ensures Less(x, s[j]) { LessTransitive(x, s[0], s[j]); }
      }
      [x] + s
    else
      LessTotal(x, s[0]);
      var t := Insert(x, s[1..]);
      assert forall y :: y in s[1..] ==> Less(s[0], y);
      [s[0]] + t
  }

  /** Python's `sorted()` of a list of distinct strings. */
  function Sort(s: seq<string>): (r: seq<string>)
    requires NoDuplicates(s)
    ensures StrictlySorted(r)
    ensures |r| == |s|
    ensures forall y :: y in r <==> y in s
  {
    if s == [] then []
    else
      var t := Sort(s[1..]);
      assert s[0] !in s[1..];
      Insert(s[0], t)
  }

  /** The first element of a strictly sorted sequence is below all others. */
  lemma FirstIsLeast(a: seq<string>, x: string)
    requires StrictlySorted(a) && x in a && x != a[0]
    ensures Less(a[0], x)
  {
  }

  /** A strictly sorted listing of a set of strings is unique: `sorted()` is
      determined by the set of names alone, whatever order they came in. */
  lemma {:induction false} SortedListingUnique(a: seq<string>, b: seq<string>)
    requires StrictlySorted(a) && StrictlySorted(b)
    requires forall x :: x in a <==> x in b
    ensures a == b
  {
    // neither can be empty without the other
    assert a != [] ==> a[0] in b;
    assert b != [] ==> b[0] in a;
    if a != [] && b != [] {
      // the first element of each is the least element of the common set
      if a[0] != b[0] {
        FirstIsLeast(a, b[0]);
        FirstIsLeast(b, a[0]);
        LessTransitive(a[0], b[0], a[0]);
        LessIrreflexive(a[0]);
      }
      assert a == [a[0]] + a[1..] && b == [b[0]] + b[1..];
      assert forall x :: x in a[1..] <==> x in b[1..] by {
        forall x ensures x in a[1..] <==> x in b[1..] {
          if x in a[1..] {
            var k :| 0 <= k < |a| - 1 && a[1..][k] == x;
            assert Less(a[0], a[k + 1]);
            LessIrreflexive(a[0]);
            assert x in b && x != b[0];
            var m :| 0 <= m < |b| && b[m] == x;
            assert b[1..][m - 1] == x;
          }
          if x in b[1..] {
            var k :| 0 <= k < |b| - 1 && b[1..][k] == x;
            assert Less(b[0], b[k + 1]);
            LessIrreflexive(b[0]);
            assert x in a && x != a[0];
            var m :| 0 <= m < |a| && a[m] == x;
            assert a[1..][m - 1] == x;
          }
        }
      }
      SortedListingUnique(a[1..], b[1..]);
    }
  }
}
