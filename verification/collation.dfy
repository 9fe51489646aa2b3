/**
 The ordering behind `localeCompare` and the sort the build script runs with it
 (build.js:106, build.js:130-134, build.js:227). Locale collation itself is replaced by
 code-point lexicographic order; the sort's guarantees below use only that this order is
 total and transitive.
 */
module Collation {

  /** `a.localeCompare(b) <= 0`, with code-point order standing in for the locale's collation. */
  predicate LocaleLeq(a: string, b: string)
    decreases |a|
  {
    |a| == 0 || (|b| > 0 && (a[0] < b[0] || (a[0] == b[0] && LocaleLeq(a[1..], b[1..]))))
  }

  lemma {:induction false} LocaleLeqTotal(a: string, b: string)
    ensures LocaleLeq(a, b) || LocaleLeq(b, a)
  {
    if |a| > 0 && |b| > 0 && a[0] == b[0] {
      LocaleLeqTotal(a[1..], b[1..]);
    }
  }

  lemma {:induction false} LocaleLeqTransitive(a: string, b: string, c: string)
    requires LocaleLeq(a, b) && LocaleLeq(b, c)
    ensures LocaleLeq(a, c)
  {
    if |a| > 0 && a[0] == b[0] && b[0] == c[0] {
      LocaleLeqTransitive(a[1..], b[1..], c[1..]);
    }
  }

  /** Every earlier element's key collates no later than every later element's key. */
  predicate SortedBy<T>(s: seq<T>, key: T -> string) {
    forall i, j | 0 <= i < j < |s| :: LocaleLeq(key(s[i]), key(s[j]))
  }

  /** Puts `x` in front of the first element whose key does not collate before it. */
  function Insert<T>(x: T, s: seq<T>, key: T -> string): (r: seq<T>)
    requires SortedBy(s, key)
    ensures |r| == |s| + 1
    ensures multiset(r) == multiset(s) + multiset{x}
    ensures SortedBy(r, key)
  {
    if |s| == 0 then [x]
    else if LocaleLeq(key(x), key(s[0])) then
      assert forall j | 0 < j < |s| :: LocaleLeq(key(s[0]), key(s[j]));
      InsertFront(x, s, key);
      [x] + s
    else
      LocaleLeqTotal(key(x), key(s[0]));
      var rest := Insert(x, s[1..], key);
      assert s == [s[0]] + s[1..];
      InsertBehind(s[0], x, s[1..], rest, key);
      [s[0]] + rest
  }

  lemma InsertFront<T>(x: T, s: seq<T>, key: T -> string)
    requires |s| > 0 && SortedBy(s, key)
    requires LocaleLeq(key(x), key(s[0]))
    ensures SortedBy([x] + s, key)
  {
    var r := [x] + s;
    forall i, j | 0 <= i < j < |r| ensures LocaleLeq(key(r[i]), key(r[j])) {
      if i == 0 && j > 1 {
        LocaleLeqTransitive(key(x), key(s[0]), key(s[j - 1]));
      }
    }
  }

  lemma InsertBehind<T>(y: T, x: T, s: seq<T>, rest: seq<T>, key: T -> string)
    requires SortedBy([y] + s, key) && SortedBy(rest, key)
    requires LocaleLeq(key(y), key(x))
    requires multiset(rest) == multiset(s) + multiset{x}
    ensures SortedBy([y] + rest, key)
  {
    var r := [y] + rest;
    forall i, j | 0 <= i < j < |r| ensures LocaleLeq(key(r[i]), key(r[j])) {
      if i == 0 {
        var e := rest[j - 1];
        assert e in multiset(rest);
        if e != x {
          assert e in multiset(s);
          var k :| 0 <= k < |s| && s[k] == e;
          assert ([y] + s)[k + 1] == e && ([y] + s)[0] == y;
        }
      } else {
        assert r[i] == rest[i - 1] && r[j] == rest[j - 1];
      }
    }
  }

  /** An insertion sort on `key` under `LocaleLeq`: the result is a sorted
      permutation of its input. */
  function SortBy<T>(s: seq<T>, key: T -> string): (r: seq<T>)
    ensures |r| == |s|
    ensures multiset(r) == multiset(s)
    ensures SortedBy(r, key)
  {
    if |s| == 0 then []
    else
      assert s == [s[0]] + s[1..];
      Insert(s[0], SortBy(s[1..], key), key)
  }

  /** An element of a permutation is an element of the original. */
  lemma PermutationMember<T>(a: seq<T>, b: seq<T>, i: nat)
    requires multiset(a) == multiset(b)
    requires i < |a|
    ensures exists k :: 0 <= k < |b| && b[k] == a[i]
  {
    assert a[i] in multiset(a);
    assert a[i] in multiset(b);
    assert a[i] in b;
  }
}
