/** Stable sorting by a numeric key, largest key first: the behaviour of
    `Array.prototype.sort((a, b) => key(b) - key(a))` (stable since
    ECMAScript 2019) and of a Realm `sorted(field, true)` result.

    Stability is stated without positions: for every key value, the elements
    with that key appear in the output in exactly their input order
    (`WithKey(r, key, k) == WithKey(xs, key, k)`). */
module Sorting {
  import opened Wrappers

  predicate NonIncreasing<T>(xs: seq<T>, key: T -> real)
  {
    forall i, j :: 0 <= i < j < |xs| ==> key(xs[i]) >= key(xs[j])
  }

  /** The subsequence of elements whose key is `k`. */
  function WithKey<T>(xs: seq<T>, key: T -> real, k: real): seq<T>
  {
    if xs == [] then []
    else (if key(xs[0]) == k then [xs[0]] else []) + WithKey(xs[1..], key, k)
  }

  lemma {:induction false} WithKeyMember<T>(xs: seq<T>, key: T -> real, k: real, y: T)
    requires y in WithKey(xs, key, k)
    ensures y in xs && key(y) == k
  {
    if key(xs[0]) != k || y != xs[0] {
      WithKeyMember(xs[1..], key, k, y);
    }
  }

  lemma {:induction false} WithKeyOfMember<T>(xs: seq<T>, key: T -> real, y: T)
    requires y in xs
    ensures WithKey(xs, key, key(y)) != []
  {
    if xs[0] != y {
      WithKeyOfMember(xs[1..], key, y);
    }
  }

  lemma WithKeyOfHead<T>(xs: seq<T>, key: T -> real)
    requires xs != []
    ensures WithKey(xs, key, key(xs[0])) != []
  {
  }

  lemma WithKeyCons<T>(y: T, rest: seq<T>, key: T -> real, k: real)
    ensures WithKey([y] + rest, key, k) == (if key(y) == k then [y] else []) + WithKey(rest, key, k)
  {
    assert ([y] + rest)[1..] == rest;
  }

  /** Insert `x` in front of the first element whose key is not larger. */
  function Insert<T>(x: T, s: seq<T>, key: T -> real): (r: seq<T>)
  {
    if s == [] then [x]
    else if key(s[0]) > key(x) then [s[0]] + Insert(x, s[1..], key)
    else [x] + s
  }

  lemma {:induction false} InsertMultiset<T>(x: T, s: seq<T>, key: T -> real)
    ensures multiset(Insert(x, s, key)) == multiset(s) + multiset{x}
  {
    if s != [] && key(s[0]) > key(x) {
      InsertMultiset(x, s[1..], key);
      assert s == [s[0]] + s[1..];
    }
  }

  lemma {:induction false} InsertSorted<T>(x: T, s: seq<T>, key: T -> real)
    requires NonIncreasing(s, key)
    ensures NonIncreasing(Insert(x, s, key), key)
  {
    if s != [] && key(s[0]) > key(x) {
      var rest := Insert(x, s[1..], key);
      InsertSorted(x, s[1..], key);
      InsertMultiset(x, s[1..], key);
      forall j | 0 <= j < |rest|
        ensures key(s[0]) >= key(rest[j])
      {
        assert rest[j] in multiset(rest);
        if rest[j] != x {
          assert rest[j] in s[1..];
        }
      }
    }
  }

  lemma {:induction false} InsertWithKey<T>(x: T, s: seq<T>, key: T -> real, k: real)
    ensures WithKey(Insert(x, s, key), key, k)
         == (if k == key(x) then [x] else []) + WithKey(s, key, k)
  {
    if s == [] {
      WithKeyCons(x, [], key, k);
    } else if key(s[0]) > key(x) {
      var rest := Insert(x, s[1..], key);
      var w := WithKey(s[1..], key, k);
      var h: seq<T> := if key(s[0]) == k then [s[0]] else [];
      var xk: seq<T> := if k == key(x) then [x] else [];
      InsertWithKey(x, s[1..], key, k);
      assert Insert(x, s, key) == [s[0]] + rest;
      WithKeyCons(s[0], rest, key, k);
      WithKeyCons(s[0], s[1..], key, k);
      assert s == [s[0]] + s[1..];
      assert h == [] || xk == [];
      assert h + (xk + w) == xk + (h + w);
    } else {
      WithKeyCons(x, s, key, k);
    }
  }

  /** Stable insertion sort, largest key first. */
  function SortDesc<T>(xs: seq<T>, key: T -> real): (r: seq<T>)
    ensures multiset(r) == multiset(xs)
    ensures NonIncreasing(r, key)
    ensures forall k :: WithKey(r, key, k) == WithKey(xs, key, k)
  {
    if xs == [] then []
    else
      var rest := SortDesc(xs[1..], key);
      SortStep(xs, rest, key);
      Insert(xs[0], rest, key)
  }

  /** Inserting the head into a stable sorting of the tail is a stable
      sorting of the whole. */
  lemma SortStep<T>(xs: seq<T>, rest: seq<T>, key: T -> real)
    requires xs != []
    requires multiset(rest) == multiset(xs[1..]) && NonIncreasing(rest, key)
    requires forall k :: WithKey(rest, key, k) == WithKey(xs[1..], key, k)
    ensures multiset(Insert(xs[0], rest, key)) == multiset(xs)
    ensures NonIncreasing(Insert(xs[0], rest, key), key)
    ensures forall k :: WithKey(Insert(xs[0], rest, key), key, k) == WithKey(xs, key, k)
  {
    InsertMultiset(xs[0], rest, key);
    InsertSorted(xs[0], rest, key);
    assert xs == [xs[0]] + xs[1..];
    forall k
      ensures WithKey(Insert(xs[0], rest, key), key, k) == WithKey(xs, key, k)
    {
      InsertWithKey(xs[0], rest, key, k);
    }
  }

  /** Two sequences sorted by the same key and agreeing on every per-key
      subsequence are equal: a stable sort has exactly one possible result. */
  lemma {:induction false} SortedUnique<T>(a: seq<T>, b: seq<T>, key: T -> real)
    requires NonIncreasing(a, key) && NonIncreasing(b, key)
    requires forall k :: WithKey(a, key, k) == WithKey(b, key, k)
    ensures a == b
    decreases |a|
  {
    if a == [] || b == [] {
      if a != [] {
        WithKeyOfHead(a, key);
      }
      if b != [] {
        WithKeyOfHead(b, key);
      }
    } else {
      var ka, kb := key(a[0]), key(b[0]);
      WithKeyOfMember(b, key, b[0]);
      var ya := WithKey(a, key, kb)[0];
      WithKeyMember(a, key, kb, ya);
      WithKeyOfMember(a, key, a[0]);
      var yb := WithKey(b, key, ka)[0];
      WithKeyMember(b, key, ka, yb);
      assert ka == kb;
      assert a[0] == WithKey(a, key, ka)[0];
      assert b[0] == WithKey(b, key, ka)[0];
      forall k
        ensures WithKey(a[1..], key, k) == WithKey(b[1..], key, k)
      {
        var wa, wb := WithKey(a, key, k), WithKey(b, key, k);
        if key(a[0]) == k {
          assert wa == [a[0]] + WithKey(a[1..], key, k);
          assert wb == [b[0]] + WithKey(b[1..], key, k);
          assert WithKey(a[1..], key, k) == wa[1..];
          assert WithKey(b[1..], key, k) == wb[1..];
        } else {
          assert wa == WithKey(a[1..], key, k);
          assert wb == WithKey(b[1..], key, k);
        }
      }
      SortedUnique(a[1..], b[1..], key);
      assert a == [a[0]] + a[1..] && b == [b[0]] + b[1..];
    }
  }

  /** Sorting an already sorted sequence changes nothing. */
  lemma SortSortedIdentity<T>(xs: seq<T>, key: T -> real)
    requires NonIncreasing(xs, key)
    ensures SortDesc(xs, key) == xs
  {
    SortedUnique(SortDesc(xs, key), xs, key);
  }

  /** `a` may come before `b`: larger `major` key, or the same `major` key
      and a `minor` key at least as large. */
  predicate Precedes<T>(a: T, b: T, major: T -> real, minor: T -> real)
  {
    major(a) > major(b) || (major(a) == major(b) && minor(a) >= minor(b))
  }

  /** Ordered by `major` first, largest first, and among equal `major`
      keys by `minor`, largest first. */
  predicate LexSorted<T>(xs: seq<T>, major: T -> real, minor: T -> real)
  {
    forall i, j :: 0 <= i < j < |xs| ==> Precedes(xs[i], xs[j], major, minor)
  }

  lemma ConsLex<T>(h: T, rest: seq<T>, major: T -> real, minor: T -> real)
    requires LexSorted(rest, major, minor)
    requires forall y :: y in rest ==> Precedes(h, y, major, minor)
    ensures LexSorted([h] + rest, major, minor)
  {
    var r := [h] + rest;
    forall i, j | 0 <= i < j < |r|
      ensures Precedes(r[i], r[j], major, minor)
    {
      assert r[j] == rest[j - 1];
      if i > 0 {
        assert r[i] == rest[i - 1];
      }
    }
  }

  lemma InsertMembers<T>(x: T, s: seq<T>, key: T -> real)
    ensures forall y :: y in Insert(x, s, key) ==> y == x || y in s
  {
    InsertMultiset(x, s, key);
    forall y | y in Insert(x, s, key)
      ensures y == x || y in s
    {
      assert y in multiset(Insert(x, s, key));
    }
  }

  lemma {:induction false} InsertLex<T>(x: T, s: seq<T>, major: T -> real, minor: T -> real)
    requires LexSorted(s, major, minor)
    requires forall i :: 0 <= i < |s| ==> minor(x) >= minor(s[i])
    ensures LexSorted(Insert(x, s, major), major, minor)
    decreases |s|
  {
    if s == [] {
    } else if major(s[0]) > major(x) {
      var rest := Insert(x, s[1..], major);
      InsertLex(x, s[1..], major, minor);
      InsertMembers(x, s[1..], major);
      forall y | y in rest
        ensures Precedes(s[0], y, major, minor)
      {
        if y != x {
          var k :| 0 <= k < |s[1..]| && s[1..][k] == y;
          assert s[k + 1] == y;
        }
      }
      ConsLex(s[0], rest, major, minor);
    } else {
      forall y | y in s
        ensures Precedes(x, y, major, minor)
      {
        var k :| 0 <= k < |s| && s[k] == y;
      }
      ConsLex(x, s, major, minor);
    }
  }

  /** Stable sorting by `major` of a sequence already ordered by `minor`
      gives the lexicographic order: ties on `major` keep the `minor` order. */
  lemma {:induction false} SortLex<T>(xs: seq<T>, major: T -> real, minor: T -> real)
    requires NonIncreasing(xs, minor)
    ensures LexSorted(SortDesc(xs, major), major, minor)
    decreases |xs|
  {
    if xs != [] {
      var rest := SortDesc(xs[1..], major);
      SortLex(xs[1..], major, minor);
      forall i | 0 <= i < |rest|
        ensures minor(xs[0]) >= minor(rest[i])
      {
        assert rest[i] in multiset(xs[1..]);
        var j :| 0 <= j < |xs[1..]| && xs[1..][j] == rest[i];
        assert xs[1..][j] == xs[j + 1];
      }
      InsertLex(xs[0], rest, major, minor);
    }
  }

  /** A permutation has the same members. */
  lemma PermutationMembers<T>(a: seq<T>, b: seq<T>)
    requires multiset(a) == multiset(b)
    ensures |a| == |b|
    ensures forall x :: x in a <==> x in b
  {
    assert |a| == |multiset(a)|;
    forall x
      ensures x in a <==> x in b
    {
      assert x in a <==> x in multiset(a);
      assert x in b <==> x in multiset(b);
    }
  }

  /** The first `n` elements (`slice(0, n)`). */
  function Take<T>(xs: seq<T>, n: nat): (r: seq<T>)
    ensures |r| <= n && |r| <= |xs|
    ensures r == xs[..|r|]
    ensures |xs| <= n ==> r == xs
    ensures |xs| > n ==> |r| == n
  {
    if |xs| <= n then xs else xs[..n]
  }

  /** A prefix of a sorted sequence is sorted, and nothing outside it has
      a larger key than anything in it. */
  lemma TakeSorted<T>(xs: seq<T>, n: nat, key: T -> real)
    requires NonIncreasing(xs, key)
    ensures NonIncreasing(Take(xs, n), key)
    ensures forall l, m :: l in xs && l !in Take(xs, n) && m in Take(xs, n) ==> key(m) >= key(l)
  {
    var r := Take(xs, n);
    forall l, m | l in xs && l !in r && m in r
      ensures key(m) >= key(l)
    {
      var j :| 0 <= j < |xs| && xs[j] == l;
      var i :| 0 <= i < |r| && r[i] == m;
      assert xs[i] == m;
      assert forall k :: 0 <= k < |r| ==> r[k] == xs[k];
      assert j >= |r|;
    }
  }

  /** `a` is `b` with some elements left out. */
  predicate IsSubsequence<T(==)>(a: seq<T>, b: seq<T>)
    decreases |b|
  {
    if a == [] then true
    else if b == [] then false
    else (a[0] == b[0] && IsSubsequence(a[1..], b[1..])) || IsSubsequence(a, b[1..])
  }

  /** A subsequence of a sorted sequence is sorted. */
  lemma {:induction false} SubsequenceSorted<T>(a: seq<T>, b: seq<T>, key: T -> real)
    requires IsSubsequence(a, b) && NonIncreasing(b, key)
    ensures NonIncreasing(a, key)
    decreases |b|
  {
    if a != [] {
      assert NonIncreasing(b[1..], key);
      if a[0] == b[0] && IsSubsequence(a[1..], b[1..]) {
        SubsequenceSorted(a[1..], b[1..], key);
        SubsequenceMembers(a[1..], b[1..]);
        forall j | 0 < j < |a|
          ensures key(a[0]) >= key(a[j])
        {
          assert a[j] == a[1..][j - 1];
          assert a[j] in a[1..];
          assert a[j] in b[1..];
          var k :| 0 <= k < |b[1..]| && b[1..][k] == a[j];
          assert b[k + 1] == a[j];
        }
      } else {
        SubsequenceSorted(a, b[1..], key);
      }
    }
  }

  lemma {:induction false} SubsequenceMembers<T>(a: seq<T>, b: seq<T>)
    requires IsSubsequence(a, b)
    ensures forall x :: x in a ==> x in b
    decreases |b|
  {
    if a != [] {
      if a[0] == b[0] && IsSubsequence(a[1..], b[1..]) {
        SubsequenceMembers(a[1..], b[1..]);
        assert forall x :: x in a ==> x == a[0] || x in a[1..];
      } else {
        SubsequenceMembers(a, b[1..]);
      }
    }
  }

  /** Leaving elements out keeps keys distinct. */
  lemma {:induction false} SubsequenceDistinct<T, K>(a: seq<T>, b: seq<T>, key: T -> K)
    requires IsSubsequence(a, b) && DistinctBy(b, key)
    ensures DistinctBy(a, key)
    decreases |b|
  {
    if a != [] {
      assert DistinctBy(b[1..], key);
      if a[0] == b[0] && IsSubsequence(a[1..], b[1..]) {
        SubsequenceDistinct(a[1..], b[1..], key);
        SubsequenceMembers(a[1..], b[1..]);
        forall j | 0 < j < |a|
          ensures key(a[0]) != key(a[j])
        {
          assert a[j] == a[1..][j - 1];
          assert a[j] in b[1..];
          var k :| 0 <= k < |b[1..]| && b[1..][k] == a[j];
          assert b[k + 1] == a[j];
        }
        forall i, j | 0 < i < j < |a|
          ensures key(a[i]) != key(a[j])
        {
          assert a[i] == a[1..][i - 1] && a[j] == a[1..][j - 1];
        }
      } else {
        SubsequenceDistinct(a, b[1..], key);
      }
    }
  }

  /** Elements with distinct keys are distinct: each is counted once. */
  lemma {:induction false} NoRepeat<T, K>(a: seq<T>, key: T -> K)
    requires DistinctBy(a, key)
    ensures forall x :: multiset(a)[x] <= 1
    decreases |a|
  {
    if a != [] {
      assert a == [a[0]] + a[1..];
      assert multiset(a) == multiset{a[0]} + multiset(a[1..]);
      assert forall k :: 0 <= k < |a[1..]| ==> a[1..][k] == a[k + 1];
      NoRepeat(a[1..], key);
      forall k | 0 <= k < |a[1..]|
        ensures a[1..][k] != a[0]
      {
        assert key(a[0]) != key(a[k + 1]);
      }
      assert multiset(a[1..])[a[0]] == 0;
    }
  }

  /** Two positions holding the same element count it twice. */
  lemma CountedTwice<T>(s: seq<T>, i: nat, j: nat)
    requires i < j < |s| && s[i] == s[j]
    ensures multiset(s)[s[i]] >= 2
  {
    assert s == s[..j] + s[j..];
    assert multiset(s) == multiset(s[..j]) + multiset(s[j..]);
    assert s[..j][i] == s[i];
    assert s[j..][0] == s[j];
  }

  /** Reordering keeps keys distinct. */
  lemma PermutationDistinct<T, K>(a: seq<T>, b: seq<T>, key: T -> K)
    requires multiset(a) == multiset(b) && DistinctBy(a, key)
    ensures DistinctBy(b, key)
  {
    forall i, j | 0 <= i < j < |b|
      ensures key(b[i]) != key(b[j])
    {
      if b[i] == b[j] {
        CountedTwice(b, i, j);
        NoRepeat(a, key);
        assert false;
      } else {
        PermutationMembers(a, b);
        assert b[i] in b && b[j] in b;
        var p :| 0 <= p < |a| && a[p] == b[i];
        var q :| 0 <= q < |a| && a[q] == b[j];
        if p < q {
          assert key(a[p]) != key(a[q]);
        } else {
          assert key(a[q]) != key(a[p]);
        }
      }
    }
  }
}
