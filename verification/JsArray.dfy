/**
 * `Array.prototype.filter` and `Array.prototype.sort` (stable since ES2019) as functions on
 * sequences, with the sort ordered by a string key under code-point lexicographic order.
 */
module JsArray {
  import opened JsString

  /** The elements of `s` that satisfy `p`, in their original order. */
  function Filter<T(==)>(s: seq<T>, p: T -> bool): (r: seq<T>)
    ensures |r| <= |s|
    ensures forall i :: 0 <= i < |r| ==> r[i] in s && p(r[i])
    ensures forall i :: 0 <= i < |s| && p(s[i]) ==> s[i] in r
  {
    if s == [] then [] else (if p(s[0]) then [s[0]] else []) + Filter(s[1..], p)
  }

  /** `r` is `s` with some elements left out and the rest kept in order. */
  predicate IsSubsequence<T(==)>(r: seq<T>, s: seq<T>)
  {
    r == [] || (s != [] && ((r[0] == s[0] && IsSubsequence(r[1..], s[1..])) || IsSubsequence(r, s[1..])))
  }

  lemma {:induction false} FilterIsSubsequence<T>(s: seq<T>, p: T -> bool)
    ensures IsSubsequence(Filter(s, p), s)
  {
    if s != [] {
      FilterIsSubsequence(s[1..], p);
      var r := Filter(s, p);
      if p(s[0]) {
        assert r[0] == s[0] && r[1..] == Filter(s[1..], p);
      } else {
        assert r == Filter(s[1..], p);
      }
    }
  }

  lemma {:induction false} FilterAppend<T>(s: seq<T>, t: seq<T>, p: T -> bool)
    ensures Filter(s + t, p) == Filter(s, p) + Filter(t, p)
  {
    if s == [] {
      assert s + t == t;
    } else {
      var head := if p(s[0]) then [s[0]] else [];
      calc {
        Filter(s + t, p);
        head + Filter((s + t)[1..], p);
        { assert (s + t)[1..] == s[1..] + t; }
        head + Filter(s[1..] + t, p);
        { FilterAppend(s[1..], t, p); }
        head + (Filter(s[1..], p) + Filter(t, p));
      }
    }
  }

  /** Filtering keeps everything exactly when every element satisfies the predicate. */
  lemma {:induction false} FilterKeepsAll<T>(s: seq<T>, p: T -> bool)
    ensures Filter(s, p) == s <==> forall x :: x in s ==> p(x)
  {
    if s != [] {
      FilterKeepsAll(s[1..], p);
      if !p(s[0]) {
        assert |Filter(s, p)| == |Filter(s[1..], p)| <= |s[1..]| < |s|;
      }
    }
  }

  lemma {:induction false} FilterDropsAll<T>(s: seq<T>, p: T -> bool)
    requires forall x :: x in s ==> !p(x)
    ensures Filter(s, p) == []
  {
    if s != [] { FilterDropsAll(s[1..], p); }
  }

  lemma FilterIdempotent<T>(s: seq<T>, p: T -> bool)
    ensures Filter(Filter(s, p), p) == Filter(s, p)
  {
    FilterKeepsAll(Filter(s, p), p);
  }

  /** Each value keeps its full multiplicity if it satisfies the predicate and disappears otherwise. */
  lemma {:induction false} FilterMultiset<T>(s: seq<T>, p: T -> bool, x: T)
    ensures multiset(Filter(s, p))[x] == if p(x) then multiset(s)[x] else 0
  {
    if s != [] {
      FilterMultiset(s[1..], p, x);
      assert s == [s[0]] + s[1..];
    }
  }

  /** The kept and the dropped elements together account for the whole sequence. */
  lemma {:induction false} FilterPartition<T>(s: seq<T>, p: T -> bool, q: T -> bool)
    requires forall x :: q(x) == !p(x)
    ensures |Filter(s, p)| + |Filter(s, q)| == |s|
  {
    if s != [] { FilterPartition(s[1..], p, q); }
  }

  /** When exactly the elements at positions `lo` to `hi` satisfy the predicate, filtering cuts out that slice. */
  lemma {:induction false} FilterSlice<T>(s: seq<T>, p: T -> bool, lo: int, hi: int)
    requires 0 <= lo <= hi <= |s|
    requires forall i :: 0 <= i < |s| ==> (p(s[i]) <==> lo <= i < hi)
    ensures Filter(s, p) == s[lo..hi]
  {
    if s != [] {
      var t := s[1..];
      var lo', hi' := if lo > 0 then lo - 1 else 0, if hi > 0 then hi - 1 else 0;
      forall i | 0 <= i < |t| ensures p(t[i]) <==> lo' <= i < hi' {
        assert t[i] == s[i + 1];
      }
      FilterSlice(t, p, lo', hi');
      if lo > 0 {
        assert !p(s[0]);
        TailSlice(s, lo, hi);
      } else if hi > 0 {
        assert p(s[0]);
        HeadSlice(s, hi);
      }
    }
  }

  lemma TailSlice<T>(s: seq<T>, lo: int, hi: int)
    requires 1 <= lo <= hi <= |s|
    ensures s[1..][lo - 1..hi - 1] == s[lo..hi]
  {
  }

  lemma HeadSlice<T>(s: seq<T>, hi: int)
    requires 1 <= hi <= |s|
    ensures s[0..hi] == [s[0]] + s[1..][0..hi - 1]
  {
  }

  /** Ascending by key: every earlier key is at most every later one. */
  predicate SortedBy<T(==)>(s: seq<T>, key: T -> string)
  {
    forall i, j :: 0 <= i < j < |s| ==> LexLe(key(s[i]), key(s[j]))
  }

  /** Places `x` before the first element whose key is not below its own. */
  function Insert<T(==)>(x: T, s: seq<T>, key: T -> string): (r: seq<T>)
    ensures multiset(r) == multiset(s) + multiset{x}
    ensures |r| == |s| + 1
  {
    if s == [] || LexLe(key(x), key(s[0])) then [x] + s
    else
      assert s == [s[0]] + s[1..];
      [s[0]] + Insert(x, s[1..], key)
  }

  /** The stable sort: each element is inserted ahead of every later element with an equal key. */
  function SortBy<T(==)>(s: seq<T>, key: T -> string): (r: seq<T>)
    ensures multiset(r) == multiset(s)
    ensures |r| == |s|
  {
    if s == [] then []
    else
      assert s == [s[0]] + s[1..];
      Insert(s[0], SortBy(s[1..], key), key)
  }

  lemma {:induction false} InsertSorted<T>(x: T, s: seq<T>, key: T -> string)
    requires SortedBy(s, key)
    ensures SortedBy(Insert(x, s, key), key)
  {
    var r := Insert(x, s, key);
    if s == [] || LexLe(key(x), key(s[0])) {
      forall i, j | 0 <= i < j < |r| ensures LexLe(key(r[i]), key(r[j])) {
        if i == 0 && j > 1 {
          LexLeTransitive(key(x), key(s[0]), key(s[j - 1]));
        }
      }
    } else {
      LexLeTotal(key(x), key(s[0]));
      InsertSorted(x, s[1..], key);
      var t := Insert(x, s[1..], key);
      assert r == [s[0]] + t;
      forall i, j | 0 <= i < j < |r| ensures LexLe(key(r[i]), key(r[j])) {
        if i == 0 {
          assert r[j] in multiset(t);
          assert r[j] in s[1..] || r[j] == x;
          if r[j] != x {
            var k :| 0 <= k < |s[1..]| && s[1..][k] == r[j];
            assert s[k + 1] == r[j];
          }
        }
      }
    }
  }

  /** The sort's result is in ascending key order. */
  lemma {:induction false} SortBySorted<T>(s: seq<T>, key: T -> string)
    ensures SortedBy(SortBy(s, key), key)
  {
    if s != [] {
      SortBySorted(s[1..], key);
      InsertSorted(s[0], SortBy(s[1..], key), key);
    }
  }

  /** The elements whose key is exactly `k`. */
  function KeyIs<T(==)>(key: T -> string, k: string): T -> bool
  {
    x => key(x) == k
  }

  lemma {:induction false} InsertStable<T>(x: T, s: seq<T>, key: T -> string, k: string)
    ensures Filter(Insert(x, s, key), KeyIs(key, k)) ==
            if key(x) == k then [x] + Filter(s, KeyIs(key, k)) else Filter(s, KeyIs(key, k))
  {
    if s != [] && !LexLe(key(x), key(s[0])) {
      InsertStable(x, s[1..], key, k);
      LexLeReflexive(key(x));
      assert Insert(x, s, key)[1..] == Insert(x, s[1..], key);
    }
  }

  /**
   * Stability: among the elements that share a key the sort keeps the input order, so
   * together with ascending order the result is fully determined.
   */
  lemma {:induction false} SortByStable<T>(s: seq<T>, key: T -> string, k: string)
    ensures Filter(SortBy(s, key), KeyIs(key, k)) == Filter(s, KeyIs(key, k))
  {
    if s != [] {
      SortByStable(s[1..], key, k);
      InsertStable(s[0], SortBy(s[1..], key), key, k);
    }
  }

  /** A slice of a sorted sequence is sorted. */
  lemma SortedSlice<T>(s: seq<T>, key: T -> string, lo: int, hi: int)
    requires 0 <= lo <= hi <= |s| && SortedBy(s, key)
    ensures SortedBy(s[lo..hi], key)
  {
    forall i, j | 0 <= i < j < hi - lo ensures LexLe(key(s[lo..hi][i]), key(s[lo..hi][j])) {
      assert s[lo..hi][i] == s[lo + i] && s[lo..hi][j] == s[lo + j];
    }
  }

  /** Sorting a sequence that is already in order leaves it unchanged. */
  lemma {:induction false} SortBySortedIdentity<T>(s: seq<T>, key: T -> string)
    requires SortedBy(s, key)
    ensures SortBy(s, key) == s
  {
    if s != [] {
      assert SortedBy(s[1..], key);
      SortBySortedIdentity(s[1..], key);
      var t := s[1..];
      assert t == [] || LexLe(key(s[0]), key(t[0]));
    }
  }
}
