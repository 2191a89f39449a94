/** Python's ordering of str values and the sorted() results the summaries
    keep: a sorted list of method names and a sorted list of import names. */
module StringOrder {

  /** `a < b` on Python strings: code point by code point, and a proper
      prefix comes first. */
  predicate Less(a: string, b: string) {
    if b == [] then false
    else if a == [] then true
    else if a[0] != b[0] then a[0] < b[0]
    else Less(a[1..], b[1..])
  }

  lemma {:induction false} LessIrreflexive(a: string)
    ensures !Less(a, a)
  {
    if a != [] {
      LessIrreflexive(a[1..]);
    }
  }

  lemma {:induction false} LessAsymmetric(a: string, b: string)
    requires Less(a, b)
    ensures !Less(b, a)
  {
    if a != [] && a[0] == b[0] {
      LessAsymmetric(a[1..], b[1..]);
    }
  }

  lemma {:induction false} LessTransitive(a: string, b: string, c: string)
    requires Less(a, b) && Less(b, c)
    ensures Less(a, c)
  {
    if a != [] && a[0] == b[0] && b[0] == c[0] {
      LessTransitive(a[1..], b[1..], c[1..]);
    }
  }

  /** Two different strings are always ordered one way or the other. */
  lemma {:induction false} LessTotal(a: string, b: string)
    requires a != b
    ensures Less(a, b) || Less(b, a)
  {
    if a != [] && b != [] && a[0] == b[0] {
      assert a == [a[0]] + a[1..] && b == [b[0]] + b[1..];
      LessTotal(a[1..], b[1..]);
    }
  }

  /** Non-decreasing: no later element is smaller than an earlier one. */
  predicate Sorted(s: seq<string>) {
    forall i, j :: 0 <= i < j < |s| ==> !Less(s[j], s[i])
  }

  /** Increasing, hence also free of duplicates. */
  predicate StrictlySorted(s: seq<string>) {
    forall i, j :: 0 <= i < j < |s| ==> Less(s[i], s[j])
  }

  /** Sorted insertion, as sorted() places an element among the ones after it. */
  function Insert(x: string, s: seq<string>): (r: seq<string>)
    requires Sorted(s)
    ensures Sorted(r)
    ensures multiset(r) == multiset(s) + multiset{x}
  {
    if s == [] then [x]
    else if !Less(s[0], x) then
      NotAboveHead(x, s);
      [x] + s
    else
      var rest := Insert(x, s[1..]);
      HeadNotAboveInsert(x, s, rest);
      [s[0]] + rest
  }

  /** An element not above the head of a sorted list can go in front of it. */
  lemma NotAboveHead(x: string, s: seq<string>)
    requires Sorted(s) && s != [] && !Less(s[0], x)
    ensures Sorted([x] + s)
  {
    assert forall j :: 0 < j < |[x] + s| ==> ([x] + s)[j] == s[j - 1];
    forall j | 0 <= j < |s| ensures !Less(s[j], x) {
      if Less(s[j], x) {
        if Less(s[0], s[j]) {
          LessTransitive(s[0], s[j], x);
        } else if s[0] != s[j] {
          LessTotal(s[0], s[j]);
        }
      }
    }
  }

  /** The head of a sorted list stays in front once a larger element is
      inserted into its tail. */
  lemma HeadNotAboveInsert(x: string, s: seq<string>, rest: seq<string>)
    requires Sorted(s) && s != [] && Less(s[0], x)
    requires Sorted(rest) && multiset(rest) == multiset(s[1..]) + multiset{x}
    ensures Sorted([s[0]] + rest)
    ensures multiset([s[0]] + rest) == multiset(s) + multiset{x}
  {
    assert s == [s[0]] + s[1..];
    forall j | 0 <= j < |rest| ensures !Less(rest[j], s[0]) {
      assert rest[j] in multiset(rest);
      if rest[j] == x {
        LessAsymmetric(s[0], x);
      } else {
        assert rest[j] in multiset(s[1..]);
        var k :| 0 <= k < |s[1..]| && s[1..][k] == rest[j];
        assert s[k + 1] == rest[j];
      }
    }
    assert forall j :: 0 < j < |[s[0]] + rest| ==> ([s[0]] + rest)[j] == rest[j - 1];
  }

  /** sorted() on a list of strings: the same elements, with their
      multiplicities, in non-decreasing order. */
  function Sort(s: seq<string>): (r: seq<string>)
    ensures Sorted(r)
    ensures multiset(r) == multiset(s)
  {
    if s == [] then []
    else
      assert s == [s[0]] + s[1..];
      Insert(s[0], Sort(s[1..]))
  }

  /** The first element of a non-empty sorted list is not above any element. */
  lemma SortedHeadIsLeast(s: seq<string>, x: string)
    requires Sorted(s) && x in s
    ensures !Less(x, s[0])
  {
    var k :| 0 <= k < |s| && s[k] == x;
    if k > 0 {
      assert !Less(s[k], s[0]);
    } else {
      LessIrreflexive(x);
    }
  }

  /** Two sorted lists with the same elements start with the same element. */
  lemma SortedSameHead(a: seq<string>, b: seq<string>)
    requires Sorted(a) && Sorted(b) && a != []
    requires multiset(a) == multiset(b)
    ensures b != [] && a[0] == b[0]
  {
    assert a[0] in multiset(b);
    assert b != [];
    assert b[0] in multiset(a);
    SortedHeadIsLeast(a, b[0]);
    SortedHeadIsLeast(b, a[0]);
    if a[0] != b[0] {
      LessTotal(a[0], b[0]);
    }
  }

  /** Removing the head of a list removes one occurrence from its multiset. */
  lemma TailMultiset(a: seq<string>)
    requires a != []
    ensures multiset(a[1..]) == multiset(a) - multiset{a[0]}
  {
    assert a == [a[0]] + a[1..];
    assert multiset(a) == multiset{a[0]} + multiset(a[1..]);
  }

  /** A sorted list is fixed by its multiset of elements. */
  lemma {:induction false} SortedUnique(a: seq<string>, b: seq<string>)
    requires Sorted(a) && Sorted(b)
    requires multiset(a) == multiset(b)
    ensures a == b
  {
    if a == [] {
      assert |multiset(b)| == 0;
    } else {
      SortedSameHead(a, b);
      TailMultiset(a);
      TailMultiset(b);
      SortedUnique(a[1..], b[1..]);
      assert a == [a[0]] + a[1..] && b == [b[0]] + b[1..];
    }
  }

  /** sorted() forgets the original order and nothing else: two lists sort to
      the same list exactly when they hold the same elements equally often. */
  lemma SortOrderFree(s1: seq<string>, s2: seq<string>)
    ensures Sort(s1) == Sort(s2) <==> multiset(s1) == multiset(s2)
  {
    if multiset(s1) == multiset(s2) {
      SortedUnique(Sort(s1), Sort(s2));
    }
  }

  /** x is not above any element of s. */
  predicate IsLeast(x: string, s: set<string>) {
    x in s && forall y :: y in s ==> !Less(y, x)
  }

  lemma {:induction false} LeastExists(s: set<string>)
    requires s != {}
    ensures exists x :: IsLeast(x, s)
    decreases |s|
  {
    var y :| y in s;
    if s - {y} == {} {
      assert s == {y};
      LessIrreflexive(y);
      assert IsLeast(y, s);
    } else {
      LeastExists(s - {y});
      var x :| IsLeast(x, s - {y});
      if Less(y, x) {
        LessIrreflexive(y);
        forall z | z in s ensures !Less(z, y) {
          if z != y && Less(z, y) {
            LessTransitive(z, y, x);
          }
        }
        assert IsLeast(y, s);
      } else {
        assert IsLeast(x, s);
      }
    }
  }

  /** A set has at most one least element. */
  lemma LeastUnique(s: set<string>)
    ensures forall x, y :: IsLeast(x, s) && IsLeast(y, s) ==> x == y
  {
    forall x, y | IsLeast(x, s) && IsLeast(y, s) ensures x == y {
      if x != y {
        LessTotal(x, y);
      }
    }
  }

  /** sorted() on a set of strings: every element once, in increasing order. */
  function SortSet(s: set<string>): (r: seq<string>)
    ensures StrictlySorted(r)
    ensures forall x :: x in r <==> x in s
    ensures |r| == |s|
    decreases |s|
  {
    if s == {} then []
    else
      LeastExists(s);
      LeastUnique(s);
      var x :| IsLeast(x, s);
      var rest := SortSet(s - {x});
      assert forall y :: y in rest ==> y in s && y != x;
      forall j | 0 <= j < |rest| ensures Less(x, rest[j]) {
        assert rest[j] in s;
        LessTotal(x, rest[j]);
      }
      [x] + rest
  }

  /** Comparing the sorted lists of two sets is comparing the sets. */
  lemma SortSetOrderFree(a: set<string>, b: set<string>)
    ensures SortSet(a) == SortSet(b) <==> a == b
  {
    if SortSet(a) == SortSet(b) {
      forall x ensures x in a <==> x in b {
        assert x in a <==> x in SortSet(a);
      }
    }
  }
}
