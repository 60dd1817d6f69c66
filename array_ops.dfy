/**
 * The built-in array operations the page calls on its lists: `sort` with a
 * descending numeric comparator (`(a, b) => key(b) - key(a)`), and `filter`.
 *
 * `Array.prototype.sort` is stable, so elements whose keys compare equal
 * keep their relative order; the model is a stable insertion sort.
 */
module ArrayOps {

  /** Puts `x` in front of the first element whose key is at most its own. */
  function Insert<T>(x: T, s: seq<T>, key: T -> int): (r: seq<T>)
    ensures |r| == |s| + 1
  {
    if s == [] || key(x) >= key(s[0]) then [x] + s else [s[0]] + Insert(x, s[1..], key)
  }

  /** `s.sort((a, b) => key(b) - key(a))` on a copy of `s`. */
  function SortDesc<T>(s: seq<T>, key: T -> int): (r: seq<T>)
    ensures |r| == |s|
  {
    if s == [] then [] else Insert(s[0], SortDesc(s[1..], key), key)
  }

  ghost predicate SortedDesc<T>(s: seq<T>, key: T -> int) {
    forall i, j :: 0 <= i < j < |s| ==> key(s[i]) >= key(s[j])
  }

  /** The elements of `s` whose key is `k`, in their order in `s`. */
  function WithKey<T>(s: seq<T>, key: T -> int, k: int): seq<T> {
    if s == [] then []
    else if key(s[0]) == k then [s[0]] + WithKey(s[1..], key, k)
    else WithKey(s[1..], key, k)
  }

  lemma {:induction false} InsertPermutes<T>(x: T, s: seq<T>, key: T -> int)
    ensures multiset(Insert(x, s, key)) == multiset(s) + multiset{x}
  {
    if s != [] && key(x) < key(s[0]) {
      InsertPermutes(x, s[1..], key);
      assert s == [s[0]] + s[1..];
    }
  }

  lemma {:induction false} InsertSorted<T>(x: T, s: seq<T>, key: T -> int)
    requires SortedDesc(s, key)
    ensures SortedDesc(Insert(x, s, key), key)
  {
    if s != [] && key(x) < key(s[0]) {
      var t := s[1..];
      InsertSorted(x, t, key);
      InsertPermutes(x, t, key);
      var r := Insert(x, t, key);
      assert Insert(x, s, key) == [s[0]] + r;
      // Every element of r is x or an element of t, so none outranks s[0].
      forall i | 0 <= i < |r|
        ensures key(s[0]) >= key(r[i])
      {
        assert r[i] in multiset(r);
        if r[i] != x {
          assert r[i] in multiset(t);
          var j :| 0 <= j < |t| && t[j] == r[i];
          assert t[j] == s[j + 1];
        }
      }
    }
  }

  /** Inserting `x` adds it to the elements with key `k` exactly when its key is `k`, in front of them. */
  lemma {:induction false} InsertWithKey<T>(x: T, s: seq<T>, key: T -> int, k: int)
    ensures WithKey(Insert(x, s, key), key, k) == (if key(x) == k then [x] else []) + WithKey(s, key, k)
  {
    var front := if key(x) == k then [x] else [];
    if s == [] || key(x) >= key(s[0]) {
      var r := [x] + s;
      assert r[0] == x && r[1..] == s;
      assert WithKey(r, key, k) == front + WithKey(s, key, k);
    } else {
      var t := s[1..];
      var r := Insert(x, t, key);
      InsertWithKey(x, t, key, k);
      var u := [s[0]] + r;
      assert u[0] == s[0] && u[1..] == r;
      if key(s[0]) == k {
        // s[0] outranks x, so x does not have key k.
        assert front == [];
        assert WithKey(u, key, k) == [s[0]] + WithKey(r, key, k);
        assert WithKey(s, key, k) == [s[0]] + WithKey(t, key, k);
      } else {
        assert WithKey(u, key, k) == WithKey(r, key, k);
        assert WithKey(s, key, k) == WithKey(t, key, k);
      }
    }
  }

  lemma {:induction false} SortDescPermutes<T>(s: seq<T>, key: T -> int)
    ensures multiset(SortDesc(s, key)) == multiset(s)
  {
    if s != [] {
      SortDescPermutes(s[1..], key);
      InsertPermutes(s[0], SortDesc(s[1..], key), key);
      assert s == [s[0]] + s[1..];
    }
  }

  lemma {:induction false} SortDescOrdered<T>(s: seq<T>, key: T -> int)
    ensures SortedDesc(SortDesc(s, key), key)
  {
    if s != [] {
      SortDescOrdered(s[1..], key);
      InsertSorted(s[0], SortDesc(s[1..], key), key);
    }
  }

  /** The sort yields a list ordered by non-increasing key, and a permutation of its input. */
  lemma SortDescSorted<T>(s: seq<T>, key: T -> int)
    ensures SortedDesc(SortDesc(s, key), key)
    ensures multiset(SortDesc(s, key)) == multiset(s)
  {
    SortDescOrdered(s, key);
    SortDescPermutes(s, key);
  }

  /** The sort is stable: the elements sharing a key keep their input order. */
  lemma {:induction false} SortDescStable<T>(s: seq<T>, key: T -> int, k: int)
    ensures WithKey(SortDesc(s, key), key, k) == WithKey(s, key, k)
  {
    if s != [] {
      SortDescStable(s[1..], key, k);
      InsertWithKey(s[0], SortDesc(s[1..], key), key, k);
    }
  }

  /** In a list sorted by non-increasing key, the first `m` elements outrank the rest. */
  lemma PrefixOutranks<T>(s: seq<T>, key: T -> int, m: nat, x: T, y: T)
    requires SortedDesc(s, key) && m <= |s|
    requires x in s[..m] && y in s[m..]
    ensures key(x) >= key(y)
  {
    var i :| 0 <= i < m && s[..m][i] == x;
    var j :| 0 <= j < |s| - m && s[m..][j] == y;
    assert s[i] == x && s[m + j] == y;
  }

  /** An element of the input left out of the first `m` sorted elements ranks no higher than any of them. */
  lemma SortDescPrefixOutranks<T>(s: seq<T>, key: T -> int, m: nat, x: T, y: T)
    requires m <= |s|
    requires x in SortDesc(s, key)[..m] && y in s && y !in SortDesc(s, key)[..m]
    ensures key(x) >= key(y)
  {
    var sorted := SortDesc(s, key);
    SortDescSorted(s, key);
    assert y in multiset(sorted);
    assert sorted == sorted[..m] + sorted[m..];
    PrefixOutranks(sorted, key, m, x, y);
  }

  /** No element occurs twice in `s`. */
  ghost predicate Distinct<T>(s: seq<T>) {
    forall i, j :: 0 <= i < j < |s| ==> s[i] != s[j]
  }

  lemma {:induction false} DistinctCountsOne<T>(s: seq<T>, x: T)
    requires Distinct(s)
    ensures multiset(s)[x] <= 1
  {
    if s != [] {
      var t := s[1..];
      assert Distinct(t) by {
        forall i, j | 0 <= i < j < |t| ensures t[i] != t[j] {
          assert t[i] == s[i + 1] && t[j] == s[j + 1];
        }
      }
      DistinctCountsOne(t, x);
      assert s == [s[0]] + t;
      if s[0] == x {
        assert x !in t by {
          forall j | 0 <= j < |t| ensures t[j] != x {
            assert t[j] == s[j + 1];
          }
        }
      }
    }
  }

  lemma RepeatCountsTwo<T>(s: seq<T>, i: nat, j: nat)
    requires i < j < |s| && s[i] == s[j]
    ensures multiset(s)[s[i]] >= 2
  {
    assert s == s[..j] + s[j..];
    assert s[..j][i] == s[i];
    assert s[j..][0] == s[j];
  }

  /** A rearrangement of a list without repeats has no repeats either. */
  lemma PermutationKeepsDistinct<T>(s: seq<T>, t: seq<T>)
    requires multiset(s) == multiset(t) && Distinct(s)
    ensures Distinct(t)
  {
    forall i, j | 0 <= i < j < |t|
      ensures t[i] != t[j]
    {
      if t[i] == t[j] {
        RepeatCountsTwo(t, i, j);
        DistinctCountsOne(s, t[i]);
      }
    }
  }

  /** `s.filter(p)`. */
  function Filter<T>(s: seq<T>, p: T -> bool): seq<T> {
    if s == [] then []
    else if p(s[0]) then [s[0]] + Filter(s[1..], p)
    else Filter(s[1..], p)
  }

  /** The filter holds exactly the elements that pass. */
  lemma {:induction false} FilterMembers<T>(s: seq<T>, p: T -> bool)
    ensures forall x :: x in Filter(s, p) <==> x in s && p(x)
  {
    if s != [] {
      FilterMembers(s[1..], p);
      assert s == [s[0]] + s[1..];
    }
  }

  /** `a` is `b` with some elements left out, the rest in their order. */
  predicate IsSubsequence<T(==)>(a: seq<T>, b: seq<T>) {
    a == [] || (b != [] && ((a[0] == b[0] && IsSubsequence(a[1..], b[1..])) || IsSubsequence(a, b[1..])))
  }

  /**
   * The filter keeps every element that passes, as often as it occurs,
   * drops every element that fails, and keeps the order.
   */
  lemma {:induction false} FilterFacts<T>(s: seq<T>, p: T -> bool)
    ensures forall x :: multiset(Filter(s, p))[x] == if p(x) then multiset(s)[x] else 0
    ensures IsSubsequence(Filter(s, p), s)
  {
    if s != [] {
      FilterFacts(s[1..], p);
      assert s == [s[0]] + s[1..];
      var f := Filter(s[1..], p);
      if p(s[0]) {
        assert ([s[0]] + f)[1..] == f;
      } else {
        if f != [] {
          assert IsSubsequence(f, s[1..]);
        }
      }
    }
  }
}
