/**
  sort.Slice over table names with Go's `<` on strings, as GetTables uses it. The sort is
  modelled by insertion; since a sorted permutation is unique, any correct sorting algorithm,
  stable or not, yields the same result.
 */
module Sorting {
  import opened GoStrings

  /** Ascending by Go's string order. */
  predicate Sorted(s: seq<string>) {
    forall i, j :: 0 <= i < j < |s| ==> !Less(s[j], s[i])
  }

  /** "Not greater" is transitive. */
  lemma NotLessTransitive(a: string, b: string, c: string)
    requires !Less(b, a) && !Less(c, b)
    ensures !Less(c, a)
  {
    if Less(c, a) && a != b && b != c {
      LessTotal(a, b);
      LessTransitive(c, a, b);
    }
  }

  /** Two strings neither of which is less than the other are equal. */
  lemma NotLessAntisymmetric(a: string, b: string)
    requires !Less(a, b) && !Less(b, a)
    ensures a == b
  {
    if a != b {
      LessTotal(a, b);
    }
  }

  /** Inserts `x` into a sorted sequence before the first element not less than it. */
  function Insert(x: string, s: seq<string>): (r: seq<string>)
    requires Sorted(s)
    ensures Sorted(r)
    ensures multiset(r) == multiset(s) + multiset{x}
    decreases |s|
  {
    if |s| == 0 then [x]
    else if !Less(s[0], x) then
      assert forall j :: 0 <= j < |s| ==> !Less(s[j], x) by {
        forall j | 0 <= j < |s|
          ensures !Less(s[j], x)
        {
          if j > 0 {
            NotLessTransitive(x, s[0], s[j]);
          }
        }
      }
      [x] + s
    else
      var rest := Insert(x, s[1..]);
      assert s == [s[0]] + s[1..];
      assert forall j :: 0 <= j < |rest| ==> !Less(rest[j], s[0]) by {
        LessAsymmetric(s[0], x);
        forall j | 0 <= j < |rest|
          ensures !Less(rest[j], s[0])
        {
          assert rest[j] in multiset(rest);
          if rest[j] != x {
            assert rest[j] in multiset(s[1..]);
            var k :| 0 <= k < |s[1..]| && s[1..][k] == rest[j];
            assert s[k + 1] == rest[j];
          }
        }
      }
      [s[0]] + rest
  }

  /** Sorts by repeated insertion. */
  function Sort(s: seq<string>): (r: seq<string>)
    ensures Sorted(r)
    ensures multiset(r) == multiset(s)
    decreases |s|
  {
    if |s| == 0 then []
    else
      assert s == [s[0]] + s[1..];
      Insert(s[0], Sort(s[1..]))
  }

  /** The smallest element of a sorted sequence comes first. */
  lemma SortedFirstIsLeast(s: seq<string>, x: string)
    requires Sorted(s) && x in multiset(s)
    ensures |s| > 0 && !Less(x, s[0])
  {
    assert x in s;
    var k :| 0 <= k < |s| && s[k] == x;
    if k == 0 {
      LessIrreflexive(x);
    }
  }

  /** Two arrangements of the same strings that start alike continue with the same strings. */
  lemma TailsPermuted(a: seq<string>, b: seq<string>)
    requires |a| > 0 && |b| > 0 && a[0] == b[0]
    requires multiset(a) == multiset(b)
    ensures multiset(a[1..]) == multiset(b[1..])
  {
    assert a == [a[0]] + a[1..] && b == [b[0]] + b[1..];
    assert multiset(a) == multiset{a[0]} + multiset(a[1..]);
    assert multiset(b) == multiset{b[0]} + multiset(b[1..]);
    assert multiset(a[1..]) == multiset(a) - multiset{a[0]};
    assert multiset(b[1..]) == multiset(b) - multiset{b[0]};
  }

  /** There is only one sorted arrangement of a multiset of strings. */
  lemma {:induction false} SortedUnique(a: seq<string>, b: seq<string>)
    requires Sorted(a) && Sorted(b)
    requires multiset(a) == multiset(b)
    ensures a == b
    decreases |a|
  {
    if |a| > 0 {
      assert a[0] in multiset(a);
      SortedFirstIsLeast(b, a[0]);
      assert b[0] in multiset(b);
      SortedFirstIsLeast(a, b[0]);
      NotLessAntisymmetric(a[0], b[0]);
      TailsPermuted(a, b);
      SortedUnique(a[1..], b[1..]);
    } else {
      assert |b| == |multiset(b)| == 0;
    }
  }

  /** Sorting two arrangements of the same strings gives the same sequence. */
  lemma {:induction false} SortPermutationInvariant(a: seq<string>, b: seq<string>)
    requires multiset(a) == multiset(b)
    ensures Sort(a) == Sort(b)
  {
    SortedUnique(Sort(a), Sort(b));
  }
}
