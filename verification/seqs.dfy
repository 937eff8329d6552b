/** Option values for the source's `undefined` results. */
module Wrappers {
  datatype Option<+T> = None | Some(value: T)
}

/**
 * Sequence operations that the application borrows from JavaScript's arrays:
 * `filter`, de-duplication through a `Set`, and the stable `sort`.
 */
module Seqs {

  /** The elements of `s` that satisfy `p`, in their original order (`Array.prototype.filter`). */
  function Filter<T(!new)>(s: seq<T>, p: T -> bool): (r: seq<T>)
    ensures |r| <= |s|
  {
    if s == [] then [] else (if p(s[0]) then [s[0]] else []) + Filter(s[1..], p)
  }

  /** The elements kept are exactly the elements of `s` that satisfy `p`. */
  lemma {:induction false} FilterMembers<T(!new)>(s: seq<T>, p: T -> bool)
    ensures forall x :: x in Filter(s, p) <==> x in s && p(x)
  {
    if s != [] {
      FilterMembers(s[1..], p);
      assert s == [s[0]] + s[1..];
    }
  }

  /** `r` can be obtained from `s` by deleting elements: the survivors keep their relative order. */
  predicate IsSubsequence<T(==,!new)>(r: seq<T>, s: seq<T>)
  {
    if r == [] then true
    else if s == [] then false
    else (r[0] == s[0] && IsSubsequence(r[1..], s[1..])) || IsSubsequence(r, s[1..])
  }

  lemma {:induction false} FilterIsSubsequence<T(!new)>(s: seq<T>, p: T -> bool)
    ensures IsSubsequence(Filter(s, p), s)
  {
    if s != [] {
      FilterIsSubsequence(s[1..], p);
      if p(s[0]) {
        assert Filter(s, p) == [s[0]] + Filter(s[1..], p);
      } else {
        assert Filter(s, p) == Filter(s[1..], p);
        SubsequenceOfTail(Filter(s[1..], p), s);
      }
    }
  }

  /** Appending to the longer list keeps a subsequence; appending to both keeps it too. */
  lemma {:induction false} SubsequenceExtend<T(!new)>(r: seq<T>, s: seq<T>, x: T)
    requires IsSubsequence(r, s)
    ensures IsSubsequence(r, s + [x]) && IsSubsequence(r + [x], s + [x])
    decreases |s|
  {
    if s == [] {
      assert r == [];
      assert IsSubsequence([x][1..], [x][1..]);
    } else if r == [] {
      SubsequenceExtend(r, s[1..], x);
      assert (s + [x])[1..] == s[1..] + [x];
      assert [x] == r + [x];
    } else {
      assert (s + [x])[1..] == s[1..] + [x];
      assert (r + [x])[1..] == r[1..] + [x];
      if r[0] == s[0] && IsSubsequence(r[1..], s[1..]) {
        SubsequenceExtend(r[1..], s[1..], x);
      } else {
        SubsequenceExtend(r, s[1..], x);
      }
    }
  }

  lemma SubsequenceOfTail<T(!new)>(r: seq<T>, s: seq<T>)
    requires s != [] && IsSubsequence(r, s[1..])
    ensures IsSubsequence(r, s)
  {
  }

  /** Number of elements of `s` that satisfy `p`. */
  function Count<T(!new)>(s: seq<T>, p: T -> bool): nat
  {
    if s == [] then 0 else (if p(s[0]) then 1 else 0) + Count(s[1..], p)
  }

  lemma {:induction false} FilterLength<T(!new)>(s: seq<T>, p: T -> bool)
    ensures |Filter(s, p)| == Count(s, p)
    ensures |Filter(s, x => !p(x))| == |s| - Count(s, p)
  {
    if s != [] {
      FilterLength(s[1..], p);
    }
  }

  lemma {:induction false} CountAppend<T(!new)>(a: seq<T>, b: seq<T>, p: T -> bool)
    ensures Count(a + b, p) == Count(a, p) + Count(b, p)
  {
    if a != [] {
      assert (a + b)[0] == a[0] && (a + b)[1..] == a[1..] + b;
      CountAppend(a[1..], b, p);
    } else {
      assert a + b == b;
    }
  }

  /** Every element satisfies exactly one of two complementary tests. */
  lemma {:induction false} CountComplement<T(!new)>(s: seq<T>, p: T -> bool, q: T -> bool)
    requires forall x :: q(x) <==> !p(x)
    ensures Count(s, p) + Count(s, q) == |s|
  {
    if s != [] {
      CountComplement(s[1..], p, q);
    }
  }

  lemma {:induction false} CountNone<T(!new)>(s: seq<T>, p: T -> bool)
    requires forall x :: x in s ==> !p(x)
    ensures Count(s, p) == 0
  {
    if s != [] {
      CountNone(s[1..], p);
    }
  }

  lemma {:induction false} FilterAll<T(!new)>(s: seq<T>, p: T -> bool)
    requires forall x :: x in s ==> p(x)
    ensures Filter(s, p) == s
  {
    if s != [] {
      FilterAll(s[1..], p);
    }
  }

  lemma {:induction false} FilterAppend<T(!new)>(a: seq<T>, b: seq<T>, p: T -> bool)
    ensures Filter(a + b, p) == Filter(a, p) + Filter(b, p)
  {
    if a != [] {
      assert (a + b)[0] == a[0] && (a + b)[1..] == a[1..] + b;
      FilterAppend(a[1..], b, p);
    } else {
      assert a + b == b;
    }
  }

  lemma AppendAssociative<T>(a: seq<T>, b: seq<T>, c: seq<T>)
    ensures a + b + c == a + (b + c)
  {
  }

  /** No value occurs twice. */
  predicate NoDuplicates<T(==,!new)>(s: seq<T>)
  {
    forall i, j :: 0 <= i < j < |s| ==> s[i] != s[j]
  }

  /** Position of the first occurrence of `x` in `s`. */
  function FirstIndex<T(==,!new)>(s: seq<T>, x: T): (k: nat)
    requires x in s
    ensures k < |s| && s[k] == x && x !in s[..k]
  {
    if s[0] == x then 0 else 1 + FirstIndex(s[1..], x)
  }

  /**
   * `[...new Set(s)]`: each value once, at the position of its first
   * occurrence. Built from the left, as a `Set` is filled.
   */
  function Distinct<T(==,!new)>(s: seq<T>): (r: seq<T>)
    ensures forall x :: x in r <==> x in s
  {
    if s == [] then []
    else
      var r := Distinct(s[..|s| - 1]);
      assert s == s[..|s| - 1] + [s[|s| - 1]];
      if s[|s| - 1] in r then r else r + [s[|s| - 1]]
  }

  lemma {:induction false} DistinctHasNoDuplicates<T(!new)>(s: seq<T>)
    ensures NoDuplicates(Distinct(s))
  {
    if s != [] {
      DistinctHasNoDuplicates(s[..|s| - 1]);
    }
  }

  /** Values come out in the order in which they first occur in `s`. */
  lemma {:induction false} DistinctFirstOccurrenceOrder<T(!new)>(s: seq<T>, i: nat, j: nat)
    requires i < j < |Distinct(s)|
    ensures FirstIndex(s, Distinct(s)[i]) < FirstIndex(s, Distinct(s)[j])
  {
    var init := s[..|s| - 1];
    var last := s[|s| - 1];
    assert s == init + [last];
    var r := Distinct(init);
    FirstIndexInPrefix(init, last, r[i]);
    if s[|s| - 1] in r {
      FirstIndexInPrefix(init, last, r[j]);
      DistinctFirstOccurrenceOrder(init, i, j);
    } else {
      if j < |r| {
        FirstIndexInPrefix(init, last, r[j]);
        DistinctFirstOccurrenceOrder(init, i, j);
      } else {
        assert Distinct(s)[j] == last && last !in init;
        FirstIndexOfNew(init, last);
      }
    }
  }

  /** The first occurrence is the position that holds `x` with no `x` before it. */
  lemma {:induction false} FirstIndexUnique<T(!new)>(s: seq<T>, x: T, k: nat)
    requires k < |s| && s[k] == x && x !in s[..k]
    ensures FirstIndex(s, x) == k
  {
    if k > 0 {
      assert s[0] in s[..k];
      assert s[1..][..k - 1] == s[..k][1..];
      FirstIndexUnique(s[1..], x, k - 1);
    }
  }

  lemma FirstIndexInPrefix<T(!new)>(init: seq<T>, last: T, x: T)
    requires x in init
    ensures FirstIndex(init + [last], x) == FirstIndex(init, x)
  {
    var k := FirstIndex(init, x);
    assert (init + [last])[..k] == init[..k];
    FirstIndexUnique(init + [last], x, k);
  }

  lemma FirstIndexOfNew<T(!new)>(init: seq<T>, last: T)
    requires last !in init
    ensures FirstIndex(init + [last], last) == |init|
  {
    assert (init + [last])[..|init|] == init;
    FirstIndexUnique(init + [last], last, |init|);
  }

  lemma FirstIndexCons<T(!new)>(a: T, t: seq<T>, x: T)
    requires x in [a] + t
    ensures x != a ==> x in t
    ensures FirstIndex([a] + t, x) == if x == a then 0 else 1 + FirstIndex(t, x)
  {
    assert ([a] + t)[0] == a && ([a] + t)[1..] == t;
  }

  /** Filtering keeps the order in which two surviving values first occur. */
  lemma {:induction false} FilterFirstIndexOrder<T(!new)>(s: seq<T>, p: T -> bool, x: T, y: T)
    requires x in s && y in s && x in Filter(s, p) && y in Filter(s, p)
    ensures FirstIndex(Filter(s, p), x) < FirstIndex(Filter(s, p), y) <==> FirstIndex(s, x) < FirstIndex(s, y)
  {
    FilterMembers(s, p);
    var a, rest := s[0], s[1..];
    assert s == [a] + rest;
    var t := Filter(rest, p);
    FilterCons(a, rest, p);
    assert Filter(s, p) == if p(a) then [a] + t else t;
    FirstIndexCons(a, rest, x);
    FirstIndexCons(a, rest, y);
    if p(a) {
      FirstIndexCons(a, t, x);
      FirstIndexCons(a, t, y);
    }
    if x != a && y != a {
      FilterMembers(rest, p);
      FilterFirstIndexOrder(rest, p, x, y);
    }
  }

  /** Keys never decrease from left to right. */
  predicate SortedBy<T(!new)>(s: seq<T>, key: T -> int)
  {
    forall i, j :: 0 <= i < j < |s| ==> key(s[i]) <= key(s[j])
  }

  lemma SortedSnoc<T(!new)>(s: seq<T>, x: T, key: T -> int)
    requires SortedBy(s, key)
    requires forall p :: 0 <= p < |s| ==> key(s[p]) <= key(x)
    ensures SortedBy(s + [x], key)
  {
  }

  /** Insert `x` in front of the first element whose key is not smaller than `x`'s. */
  function InsertBy<T(!new)>(x: T, s: seq<T>, key: T -> int): (r: seq<T>)
    ensures |r| == |s| + 1
    ensures multiset(r) == multiset(s) + multiset{x}
  {
    if s == [] || key(x) <= key(s[0]) then [x] + s
    else
      assert s == [s[0]] + s[1..];
      [s[0]] + InsertBy(x, s[1..], key)
  }

  lemma {:induction false} InsertBySorted<T(!new)>(x: T, s: seq<T>, key: T -> int)
    requires SortedBy(s, key)
    ensures SortedBy(InsertBy(x, s, key), key)
  {
    if s != [] && key(x) > key(s[0]) {
      InsertBySorted(x, s[1..], key);
      var r := InsertBy(x, s, key);
      var tail := InsertBy(x, s[1..], key);
      assert r == [s[0]] + tail;
      forall j | 0 < j < |r| ensures key(s[0]) <= key(r[j]) {
        assert r[j] in multiset(tail);
        assert r[j] in multiset(s[1..]) + multiset{x};
        if r[j] in multiset(s[1..]) {
          var k :| 0 <= k < |s[1..]| && s[1..][k] == r[j];
          assert s[k + 1] == r[j];
        }
      }
    }
  }

  /**
   * The stable sort of `s` by ascending key: the one order that is sorted and
   * keeps elements with equal keys in their original relative order. This is
   * what `Array.prototype.sort` produces for a comparator `(a, b) => key(a) - key(b)`.
   */
  function SortBy<T(!new)>(s: seq<T>, key: T -> int): (r: seq<T>)
    ensures |r| == |s|
    ensures multiset(r) == multiset(s)
  {
    if s == [] then []
    else
      assert s == [s[0]] + s[1..];
      InsertBy(s[0], SortBy(s[1..], key), key)
  }

  lemma {:induction false} SortBySorted<T(!new)>(s: seq<T>, key: T -> int)
    ensures SortedBy(SortBy(s, key), key)
    ensures multiset(SortBy(s, key)) == multiset(s)
  {
    if s != [] {
      SortBySorted(s[1..], key);
      InsertBySorted(s[0], SortBy(s[1..], key), key);
    }
  }

  /** The test "has key `k`", as a value that `Filter` can take. */
  function HasKey<T(!new)>(key: T -> int, k: int): T -> bool
  {
    y => key(y) == k
  }

  lemma FilterCons<T(!new)>(a: T, s: seq<T>, p: T -> bool)
    ensures Filter([a] + s, p) == (if p(a) then [a] else []) + Filter(s, p)
  {
    assert ([a] + s)[0] == a && ([a] + s)[1..] == s;
  }

  lemma {:induction false} InsertByStable<T(!new)>(x: T, s: seq<T>, key: T -> int, k: int)
    ensures Filter(InsertBy(x, s, key), HasKey(key, k))
         == (if key(x) == k then [x] else []) + Filter(s, HasKey(key, k))
  {
    var p := HasKey(key, k);
    var mine := if key(x) == k then [x] else [];
    if s != [] && key(x) > key(s[0]) {
      var tail := InsertBy(x, s[1..], key);
      var head := if p(s[0]) then [s[0]] else [];
      InsertByStable(x, s[1..], key, k);
      assert InsertBy(x, s, key) == [s[0]] + tail;
      FilterCons(s[0], tail, p);
      FilterCons(s[0], s[1..], p);
      assert [s[0]] + s[1..] == s;
      SwapEmpty(Filter(InsertBy(x, s, key), p), Filter(tail, p), Filter(s, p), Filter(s[1..], p), head, mine);
    } else {
      FilterCons(x, s, p);
    }
  }

  /** `a + (b + c) == b + (a + c)` when one of `a` and `b` is empty. */
  lemma SwapEmpty<T>(r: seq<T>, t: seq<T>, u: seq<T>, c: seq<T>, a: seq<T>, b: seq<T>)
    requires r == a + t && t == b + c && u == a + c
    requires a == [] || b == []
    ensures r == b + u
  {
    if a == [] {
      assert r == t && u == c;
    } else {
      assert t == c;
    }
  }

  /** Sorting keeps, for every key, the elements with that key in their original order. */
  lemma {:induction false} SortByStable<T(!new)>(s: seq<T>, key: T -> int, k: int)
    ensures Filter(SortBy(s, key), HasKey(key, k)) == Filter(s, HasKey(key, k))
  {
    if s != [] {
      SortByStable(s[1..], key, k);
      InsertByStable(s[0], SortBy(s[1..], key), key, k);
    }
  }
}
