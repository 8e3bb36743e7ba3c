/**
 A table header is the ordered sequence of its column names. This module holds
 the two notions every other part of the model is stated in: a header without
 repeated names, and the header that remains after dropping a set of names.
 */
module Columns {

  /** No column name occurs twice (the CSV reader de-duplicates header names). */
  ghost predicate Distinct(s: seq<string>)
  {
    forall i, j :: 0 <= i < j < |s| ==> s[i] != s[j]
  }

  /** The columns of `s` whose names are not in `names`, in their original order. */
  function Without(s: seq<string>, names: set<string>): (r: seq<string>)
    ensures |r| <= |s|
    ensures forall c :: c in r <==> c in s && c !in names
  {
    if s == [] then []
    else if s[0] in names then Without(s[1..], names)
    else [s[0]] + Without(s[1..], names)
  }

  /** Dropping names from a concatenation drops them from each part. */
  lemma {:induction false} WithoutAppend(a: seq<string>, b: seq<string>, names: set<string>)
    ensures Without(a + b, names) == Without(a, names) + Without(b, names)
  {
    if a == [] {
      assert a + b == b;
    } else {
      assert (a + b)[1..] == a[1..] + b;
      WithoutAppend(a[1..], b, names);
    }
  }

  /** Dropping `first` and then `second` is dropping both at once. */
  lemma {:induction false} WithoutWithout(s: seq<string>, first: set<string>, second: set<string>)
    ensures Without(Without(s, first), second) == Without(s, first + second)
  {
    if s != [] {
      WithoutWithout(s[1..], first, second);
      if s[0] !in first {
        assert Without(s, first) == [s[0]] + Without(s[1..], first);
        assert Without(s, first)[1..] == Without(s[1..], first);
      }
    }
  }

  /** A header that holds none of the names is left exactly as it was. */
  lemma {:induction false} WithoutNone(s: seq<string>, names: set<string>)
    requires forall c :: c in s ==> c !in names
    ensures Without(s, names) == s
  {
    if s != [] {
      assert s[0] in s;
      WithoutNone(s[1..], names);
      assert [s[0]] + s[1..] == s;
    }
  }

  lemma DistinctTail(s: seq<string>)
    requires s != [] && Distinct(s)
    ensures s[0] !in s[1..] && Distinct(s[1..])
  {
  }

  /** Dropping names never introduces a repeated name. */
  lemma {:induction false} WithoutDistinct(s: seq<string>, names: set<string>)
    requires Distinct(s)
    ensures Distinct(Without(s, names))
  {
    if s != [] {
      DistinctTail(s);
      WithoutDistinct(s[1..], names);
      var rest := Without(s[1..], names);
      if s[0] !in names {
        assert s[0] !in rest;
        var r := [s[0]] + rest;
        forall i, j | 0 <= i < j < |r| ensures r[i] != r[j] {
          if i == 0 {
            assert r[j] == rest[j - 1] && r[j] in rest;
          } else {
            assert r[i] == rest[i - 1] && r[j] == rest[j - 1];
          }
        }
      }
    }
  }

  /** Appending a name that is not yet present keeps the header free of repeats. */
  lemma AppendFresh(s: seq<string>, name: string)
    requires Distinct(s) && name !in s
    ensures Distinct(s + [name])
  {
  }
}
