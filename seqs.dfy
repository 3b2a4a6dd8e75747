/** The array operations the core uses from the JavaScript library:
    `filter`, `sort` by a numeric key, and `slice(0, n)`. */
module Seqs {

  /** `r` can be obtained from `s` by deleting elements: it keeps the
      relative order of what it keeps. */
  predicate IsSubsequence<T(==)>(r: seq<T>, s: seq<T>)
    decreases |s|
  {
    if r == [] then true
    else if s == [] then false
    else if r[0] == s[0] then IsSubsequence(r[1..], s[1..])
    else IsSubsequence(r, s[1..])
  }

  lemma {:induction false} SubsequenceDropHead<T>(r: seq<T>, s: seq<T>)
    requires r != [] && IsSubsequence(r, s)
    ensures IsSubsequence(r[1..], s)
    decreases |s|, 0
  {
    if r[0] == s[0] {
      SubsequenceCons(r[1..], s[1..], s[0]);
      assert [s[0]] + s[1..] == s;
    } else {
      SubsequenceDropHead(r, s[1..]);
      SubsequenceCons(r[1..], s[1..], s[0]);
      assert [s[0]] + s[1..] == s;
    }
  }

  lemma {:induction false} SubsequenceCons<T>(r: seq<T>, s: seq<T>, a: T)
    requires IsSubsequence(r, s)
    ensures IsSubsequence(r, [a] + s)
    decreases |s|, 1
  {
    var t := [a] + s;
    assert t[1..] == s;
    if r != [] && r[0] == a {
      SubsequenceDropHead(r, s);
    }
  }

  lemma {:induction false} SubsequenceTransitive<T>(a: seq<T>, b: seq<T>, c: seq<T>)
    requires IsSubsequence(a, b) && IsSubsequence(b, c)
    ensures IsSubsequence(a, c)
    decreases |c|
  {
    if a != [] && b != [] && c != [] {
      if b[0] == c[0] {
        if a[0] == b[0] {
          SubsequenceTransitive(a[1..], b[1..], c[1..]);
        } else {
          SubsequenceTransitive(a, b[1..], c[1..]);
        }
      } else {
        SubsequenceTransitive(a, b, c[1..]);
        if a[0] == c[0] {
          SubsequenceDropHead(a, c[1..]);
        }
      }
    }
  }

  /** `s.filter(p)` */
  function Filter<T(==)>(s: seq<T>, p: T -> bool): (r: seq<T>)
    ensures |r| <= |s|
    ensures forall i :: 0 <= i < |r| ==> r[i] in s && p(r[i])
    ensures forall i :: 0 <= i < |s| && p(s[i]) ==> s[i] in r
    ensures IsSubsequence(r, s)
  {
    if s == [] then []
    else if p(s[0]) then [s[0]] + Filter(s[1..], p)
    else Filter(s[1..], p)
  }

  /** Filtering keeps every kept element as many times as it occurs. */
  lemma {:induction false} FilterMultiset<T>(s: seq<T>, p: T -> bool)
    ensures forall x :: multiset(Filter(s, p))[x] == if p(x) then multiset(s)[x] else 0
  {
    if s != [] {
      FilterMultiset(s[1..], p);
      assert s == [s[0]] + s[1..];
      assert multiset(s) == multiset{s[0]} + multiset(s[1..]);
      if p(s[0]) {
        assert multiset(Filter(s, p)) == multiset{s[0]} + multiset(Filter(s[1..], p));
      }
    }
  }

  /** Two filters in a row keep what satisfies both, as many times as it
      occurs. */
  lemma FilterFilterMultiset<T>(s: seq<T>, p: T -> bool, q: T -> bool)
    ensures forall x :: multiset(Filter(Filter(s, p), q))[x] == if p(x) && q(x) then multiset(s)[x] else 0
  {
    FilterMultiset(s, p);
    FilterMultiset(Filter(s, p), q);
  }

  /** Filtering on a stronger condition keeps a subsequence of what the
      weaker one keeps. */
  lemma {:induction false} FilterStronger<T>(s: seq<T>, p: T -> bool, q: T -> bool)
    requires forall x :: x in s && q(x) ==> p(x)
    ensures IsSubsequence(Filter(s, q), Filter(s, p))
  {
    if s != [] {
      FilterStronger(s[1..], p, q);
      var a, b := Filter(s[1..], q), Filter(s[1..], p);
      if q(s[0]) {
        assert Filter(s, q) == [s[0]] + a && Filter(s, p) == [s[0]] + b;
        assert ([s[0]] + a)[1..] == a && ([s[0]] + b)[1..] == b;
      } else if p(s[0]) {
        SubsequenceCons(a, b, s[0]);
      }
    }
  }

  lemma {:induction false} FilterIdempotent<T>(s: seq<T>, p: T -> bool)
    ensures Filter(Filter(s, p), p) == Filter(s, p)
  {
    if s != [] {
      FilterIdempotent(s[1..], p);
      if p(s[0]) {
        var r := [s[0]] + Filter(s[1..], p);
        assert r[0] == s[0] && r[1..] == Filter(s[1..], p);
      }
    }
  }

  /** Filtering twice is filtering once on both conditions. */
  lemma {:induction false} FilterFilter<T>(s: seq<T>, p: T -> bool, q: T -> bool)
    ensures Filter(Filter(s, p), q) == Filter(s, x => p(x) && q(x))
  {
    if s != [] {
      FilterFilter(s[1..], p, q);
      if p(s[0]) {
        var r := [s[0]] + Filter(s[1..], p);
        assert r[0] == s[0] && r[1..] == Filter(s[1..], p);
      }
    }
  }

  lemma AppendAssoc<T>(x: seq<T>, y: seq<T>, z: seq<T>)
    ensures x + (y + z) == (x + y) + z
  {
  }

  /** Filtering distributes over concatenation. */
  lemma {:induction false} FilterAppend<T>(a: seq<T>, b: seq<T>, p: T -> bool)
    ensures Filter(a + b, p) == Filter(a, p) + Filter(b, p)
  {
    if a == [] {
      assert a + b == b;
    } else {
      var ab := a + b;
      assert ab[0] == a[0] && ab[1..] == a[1..] + b;
      FilterAppend(a[1..], b, p);
      var t := Filter(a[1..], p) + Filter(b, p);
      assert Filter(ab, p) == if p(a[0]) then [a[0]] + t else t;
      if p(a[0]) {
        assert Filter(a, p) == [a[0]] + Filter(a[1..], p);
        AppendAssoc([a[0]], Filter(a[1..], p), Filter(b, p));
      } else {
        assert Filter(a, p) == Filter(a[1..], p);
      }
    }
  }

  predicate SortedBy<T>(s: seq<T>, key: T -> int) {
    forall i, j :: 0 <= i < j < |s| ==> key(s[i]) <= key(s[j])
  }

  function Insert<T(==)>(x: T, s: seq<T>, key: T -> int): (r: seq<T>)
    ensures multiset(r) == multiset(s) + multiset{x}
  {
    if s == [] || key(x) <= key(s[0]) then
      [x] + s
    else
      assert s == [s[0]] + s[1..];
      [s[0]] + Insert(x, s[1..], key)
  }

  lemma {:induction false} InsertLowerBound<T>(x: T, s: seq<T>, key: T -> int, b: int)
    requires key(x) >= b && forall i :: 0 <= i < |s| ==> key(s[i]) >= b
    ensures forall i :: 0 <= i < |Insert(x, s, key)| ==> key(Insert(x, s, key)[i]) >= b
  {
    if s != [] && key(x) > key(s[0]) {
      InsertLowerBound(x, s[1..], key, b);
    }
  }

  lemma {:induction false} InsertSorted<T>(x: T, s: seq<T>, key: T -> int)
    requires SortedBy(s, key)
    ensures SortedBy(Insert(x, s, key), key)
  {
    if s != [] && key(x) > key(s[0]) {
      InsertSorted(x, s[1..], key);
      InsertLowerBound(x, s[1..], key, key(s[0]));
    }
  }

  /** `s.sort((a, b) => key(a) - key(b))`: a permutation of `s` that is
      non-decreasing in `key`. */
  function SortBy<T(==)>(s: seq<T>, key: T -> int): (r: seq<T>)
    ensures multiset(r) == multiset(s)
    ensures SortedBy(r, key)
  {
    if s == [] then []
    else
      assert s == [s[0]] + s[1..];
      InsertSorted(s[0], SortBy(s[1..], key), key);
      Insert(s[0], SortBy(s[1..], key), key)
  }

  /** `s.slice(0, n)` */
  function Take<T>(s: seq<T>, n: nat): (r: seq<T>)
    ensures |r| == if n < |s| then n else |s|
    ensures r == s[..|r|]
  {
    if n < |s| then s[..n] else s
  }

  /** The first `n` elements of a sorted sequence are the `n` least: no
      element left out has a smaller key than one kept. */
  lemma TakeSortedKeepsLeast<T>(s: seq<T>, key: T -> int, n: nat)
    requires SortedBy(s, key)
    ensures forall x, y :: x in Take(s, n) && y in multiset(s) - multiset(Take(s, n)) ==> key(x) <= key(y)
  {
    var r := Take(s, n);
    var rest := s[|r|..];
    assert s == r + rest;
    assert multiset(s) - multiset(r) == multiset(rest);
    forall x, y | x in r && y in multiset(s) - multiset(r)
      ensures key(x) <= key(y)
    {
      var i :| 0 <= i < |r| && r[i] == x;
      assert y in rest;
      var j :| 0 <= j < |rest| && rest[j] == y;
      assert s[i] == x && s[|r| + j] == y;
    }
  }

  /** The number of elements of `s` that satisfy `p`. */
  function Count<T>(s: seq<T>, p: T -> bool): (n: nat)
    ensures n <= |s|
  {
    if s == [] then 0
    else Count(s[..|s| - 1], p) + (if p(s[|s| - 1]) then 1 else 0)
  }

  lemma {:induction false} CountAppend<T>(a: seq<T>, b: seq<T>, p: T -> bool)
    ensures Count(a + b, p) == Count(a, p) + Count(b, p)
    decreases |b|
  {
    if b != [] {
      assert (a + b)[..|a + b| - 1] == a + b[..|b| - 1];
      CountAppend(a, b[..|b| - 1], p);
    } else {
      assert a + b == a;
    }
  }

  /** A filter keeps as many elements as satisfy its condition. */
  lemma {:induction false} FilterCount<T>(s: seq<T>, p: T -> bool)
    ensures |Filter(s, p)| == Count(s, p)
  {
    if s != [] {
      var init, x := s[..|s| - 1], s[|s| - 1];
      assert s == init + [x];
      FilterCount(init, p);
      FilterAppend(init, [x], p);
      assert [x][1..] == [];
    }
  }

  /** Counting does not depend on the order of the elements. */
  lemma {:induction false} CountPermutation<T>(a: seq<T>, b: seq<T>, p: T -> bool)
    requires multiset(a) == multiset(b)
    ensures Count(a, p) == Count(b, p)
    decreases |a|
  {
    if a != [] {
      var x := a[|a| - 1];
      var init := a[..|a| - 1];
      assert a == init + [x];
      assert x in multiset(b);
      var j :| 0 <= j < |b| && b[j] == x;
      var b' := b[..j] + b[j + 1..];
      assert b == b[..j] + [x] + b[j + 1..];
      assert multiset(b) == multiset(b[..j]) + multiset{x} + multiset(b[j + 1..]);
      assert multiset(a) == multiset(init) + multiset{x};
      assert multiset(b') == multiset(b[..j]) + multiset(b[j + 1..]);
      assert multiset(init) == multiset(a) - multiset{x};
      assert multiset(b') == multiset(b) - multiset{x};
      CountPermutation(init, b', p);
      CountAppend(b[..j] + [x], b[j + 1..], p);
      CountAppend(b[..j], [x], p);
      CountAppend(b[..j], b[j + 1..], p);
      assert [x][..0] == [];
    }
  }

  /** A subsequence of a sorted list is sorted. */
  lemma {:induction false} SubsequenceSorted<T>(r: seq<T>, s: seq<T>, key: T -> int)
    requires IsSubsequence(r, s) && SortedBy(s, key)
    ensures SortedBy(r, key)
    decreases |s|
  {
    if r != [] && s != [] {
      assert SortedBy(s[1..], key);
      if r[0] == s[0] {
        SubsequenceSorted(r[1..], s[1..], key);
        SubsequenceMembers(r[1..], s[1..]);
        forall j | 1 <= j < |r|
          ensures key(r[0]) <= key(r[j])
        {
          assert r[j] == r[1..][j - 1];
          assert r[j] in s[1..];
          var k :| 0 <= k < |s[1..]| && s[1..][k] == r[j];
          assert s[k + 1] == r[j];
        }
        forall i, j | 0 <= i < j < |r|
          ensures key(r[i]) <= key(r[j])
        {
          if i > 0 {
            assert r[i] == r[1..][i - 1] && r[j] == r[1..][j - 1];
          }
        }
      } else {
        SubsequenceSorted(r, s[1..], key);
      }
    }
  }

  /** Every member of a subsequence is a member of the whole. */
  lemma {:induction false} SubsequenceMembers<T>(r: seq<T>, s: seq<T>)
    requires IsSubsequence(r, s)
    ensures forall x :: x in r ==> x in s
    decreases |s|
  {
    if r != [] && s != [] {
      if r[0] == s[0] {
        SubsequenceMembers(r[1..], s[1..]);
        assert forall x :: x in r ==> x == r[0] || x in r[1..];
      } else {
        SubsequenceMembers(r, s[1..]);
      }
    }
  }
}
