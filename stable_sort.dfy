/**
 * The behaviour the fee table relies on from `Array.prototype.sort`: a
 * stable sort driven by a comparator that returns a negative number, zero or
 * a positive number.  It is modelled as an insertion sort that inserts each
 * element after every element that does not compare greater than it.
 */
module StableSort {

  /**
   * What a comparator has to satisfy for the sort to be well defined: the
   * sign of `cmp(a, b)` is the opposite of that of `cmp(b, a)`, and "does not
   * compare greater" is transitive.
   */
  ghost predicate Consistent<T(!new)>(cmp: (T, T) -> int) {
    && (forall a, b :: cmp(a, b) > 0 <==> cmp(b, a) < 0)
    && (forall a, b, c :: cmp(a, b) <= 0 && cmp(b, c) <= 0 ==> cmp(a, c) <= 0)
  }

  /** No element compares greater than an element after it. */
  ghost predicate Sorted<T>(s: seq<T>, cmp: (T, T) -> int) {
    forall i, j :: 0 <= i < j < |s| ==> cmp(s[i], s[j]) <= 0
  }

  /** Pairwise distinct keys. */
  ghost predicate DistinctBy<T, K>(s: seq<T>, key: T -> K) {
    forall i, j :: 0 <= i < j < |s| ==> key(s[i]) != key(s[j])
  }

  /** The elements of `s` that compare equal to `e`, in their order in `s`. */
  function Equivalents<T>(s: seq<T>, e: T, cmp: (T, T) -> int): seq<T> {
    if s == [] then []
    else Equivalents(s[..|s| - 1], e, cmp) + (if cmp(s[|s| - 1], e) == 0 then [s[|s| - 1]] else [])
  }

  /** Insert `x` after the longest suffix of `s` whose elements compare greater than `x`. */
  function Insert<T>(x: T, s: seq<T>, cmp: (T, T) -> int): seq<T> {
    if s == [] || cmp(s[|s| - 1], x) <= 0 then s + [x]
    else Insert(x, s[..|s| - 1], cmp) + [s[|s| - 1]]
  }

  /** The stable sort of `s` by `cmp`. */
  function Sort<T>(s: seq<T>, cmp: (T, T) -> int): seq<T> {
    if s == [] then [] else Insert(s[|s| - 1], Sort(s[..|s| - 1], cmp), cmp)
  }

  lemma {:induction false} InsertPermutes<T>(x: T, s: seq<T>, cmp: (T, T) -> int)
    ensures multiset(Insert(x, s, cmp)) == multiset(s) + multiset{x}
    ensures |Insert(x, s, cmp)| == |s| + 1
  {
    if s != [] && cmp(s[|s| - 1], x) > 0 {
      var init := s[..|s| - 1];
      InsertPermutes(x, init, cmp);
      assert s == init + [s[|s| - 1]];
    }
  }

  /** The sort returns a permutation of its input. */
  lemma {:induction false} SortPermutes<T>(s: seq<T>, cmp: (T, T) -> int)
    ensures multiset(Sort(s, cmp)) == multiset(s)
    ensures |Sort(s, cmp)| == |s|
  {
    if s != [] {
      var init := s[..|s| - 1];
      SortPermutes(init, cmp);
      InsertPermutes(s[|s| - 1], Sort(init, cmp), cmp);
      assert s == init + [s[|s| - 1]];
    }
  }

  /** Appending an element that nothing compares greater than keeps a sequence sorted. */
  lemma AppendSorted<T>(s: seq<T>, x: T, cmp: (T, T) -> int)
    requires Sorted(s, cmp)
    requires forall k :: 0 <= k < |s| ==> cmp(s[k], x) <= 0
    ensures Sorted(s + [x], cmp)
  {
    var r := s + [x];
    forall i, j | 0 <= i < j < |r|
      ensures cmp(r[i], r[j]) <= 0
    {
      if j < |s| {
        assert r[i] == s[i] && r[j] == s[j];
      }
    }
  }

  /** In a sorted sequence, an upper bound of the last element bounds every element. */
  lemma LastBoundsAll<T(!new)>(s: seq<T>, x: T, cmp: (T, T) -> int)
    requires Consistent(cmp) && Sorted(s, cmp)
    requires s != [] && cmp(s[|s| - 1], x) <= 0
    ensures forall k :: 0 <= k < |s| ==> cmp(s[k], x) <= 0
  {
    forall k | 0 <= k < |s| ensures cmp(s[k], x) <= 0 {
      if k < |s| - 1 {
        assert cmp(s[k], s[|s| - 1]) <= 0;
      }
    }
  }

  /** Inserting below a common upper bound keeps every element below it. */
  lemma InsertBounded<T>(x: T, s: seq<T>, b: T, cmp: (T, T) -> int)
    requires forall k :: 0 <= k < |s| ==> cmp(s[k], b) <= 0
    requires cmp(x, b) <= 0
    ensures forall k :: 0 <= k < |Insert(x, s, cmp)| ==> cmp(Insert(x, s, cmp)[k], b) <= 0
  {
    var t := Insert(x, s, cmp);
    InsertPermutes(x, s, cmp);
    forall k | 0 <= k < |t|
      ensures cmp(t[k], b) <= 0
    {
      assert t[k] in multiset(t);
      if t[k] != x {
        assert t[k] in multiset(s);
        var m :| 0 <= m < |s| && s[m] == t[k];
      }
    }
  }

  /** Dropping the last element of a sorted sequence leaves a sorted sequence below it. */
  lemma SortedPrefix<T>(init: seq<T>, last: T, cmp: (T, T) -> int)
    requires Sorted(init + [last], cmp)
    ensures Sorted(init, cmp)
    ensures forall k :: 0 <= k < |init| ==> cmp(init[k], last) <= 0
  {
    var s := init + [last];
    forall i, j | 0 <= i < j < |init| ensures cmp(init[i], init[j]) <= 0 {
      assert init[i] == s[i] && init[j] == s[j];
    }
    forall k | 0 <= k < |init| ensures cmp(init[k], last) <= 0 {
      assert init[k] == s[k] && last == s[|init|];
    }
  }

  lemma {:induction false} InsertSorted<T(!new)>(x: T, s: seq<T>, cmp: (T, T) -> int)
    requires Consistent(cmp) && Sorted(s, cmp)
    ensures Sorted(Insert(x, s, cmp), cmp)
  {
    if s == [] {
    } else if cmp(s[|s| - 1], x) <= 0 {
      LastBoundsAll(s, x, cmp);
      AppendSorted(s, x, cmp);
    } else {
      var init, last := s[..|s| - 1], s[|s| - 1];
      assert s == init + [last];
      SortedPrefix(init, last, cmp);
      InsertSorted(x, init, cmp);
      assert cmp(x, last) < 0;
      InsertBounded(x, init, last, cmp);
      AppendSorted(Insert(x, init, cmp), last, cmp);
    }
  }

  /** The sort returns its input in order. */
  lemma {:induction false} SortSorted<T(!new)>(s: seq<T>, cmp: (T, T) -> int)
    requires Consistent(cmp)
    ensures Sorted(Sort(s, cmp), cmp)
  {
    if s != [] {
      SortSorted(s[..|s| - 1], cmp);
      InsertSorted(s[|s| - 1], Sort(s[..|s| - 1], cmp), cmp);
    }
  }

  /** Elements that compare equal to one another are equivalent to the same elements. */
  lemma EquivalentTransitive<T(!new)>(a: T, b: T, e: T, cmp: (T, T) -> int)
    requires Consistent(cmp)
    requires cmp(a, e) == 0 && cmp(b, e) == 0
    ensures cmp(a, b) == 0
  {
    assert cmp(e, b) <= 0;
    assert cmp(e, a) <= 0;
  }

  lemma {:induction false} InsertStable<T(!new)>(x: T, s: seq<T>, e: T, cmp: (T, T) -> int)
    requires Consistent(cmp)
    ensures Equivalents(Insert(x, s, cmp), e, cmp)
         == Equivalents(s, e, cmp) + (if cmp(x, e) == 0 then [x] else [])
  {
    if s == [] || cmp(s[|s| - 1], x) <= 0 {
      assert (s + [x])[..|s|] == s;
    } else {
      var init, last := s[..|s| - 1], s[|s| - 1];
      InsertStable(x, init, e, cmp);
      var t := Insert(x, init, cmp);
      assert (t + [last])[..|t|] == t;
      if cmp(x, e) == 0 && cmp(last, e) == 0 {
        EquivalentTransitive(last, x, e, cmp);
      }
    }
  }

  /** The sort is stable: elements that compare equal keep their relative order. */
  lemma {:induction false} SortStable<T(!new)>(s: seq<T>, e: T, cmp: (T, T) -> int)
    requires Consistent(cmp)
    ensures Equivalents(Sort(s, cmp), e, cmp) == Equivalents(s, e, cmp)
  {
    if s != [] {
      SortStable(s[..|s| - 1], e, cmp);
      InsertStable(s[|s| - 1], Sort(s[..|s| - 1], cmp), e, cmp);
    }
  }

  /** Sorting does not make two elements share a key. */
  lemma {:induction false} SortKeepsDistinct<T, K>(s: seq<T>, key: T -> K, cmp: (T, T) -> int)
    requires DistinctBy(s, key)
    ensures DistinctBy(Sort(s, cmp), key)
  {
    if s != [] {
      var init, last := s[..|s| - 1], s[|s| - 1];
      assert DistinctBy(init, key) by {
        forall i, j | 0 <= i < j < |init| ensures key(init[i]) != key(init[j]) {
          assert init[i] == s[i] && init[j] == s[j];
        }
      }
      SortKeepsDistinct(init, key, cmp);
      SortPermutes(init, cmp);
      forall y | y in Sort(init, cmp)
        ensures key(y) != key(last)
      {
        assert y in multiset(Sort(init, cmp));
        var k :| 0 <= k < |init| && init[k] == y;
        assert s[k] == y;
      }
      InsertKeepsDistinct(last, Sort(init, cmp), key, cmp);
    }
  }

  lemma {:induction false} InsertKeepsDistinct<T, K>(x: T, s: seq<T>, key: T -> K, cmp: (T, T) -> int)
    requires DistinctBy(s, key)
    requires forall y :: y in s ==> key(y) != key(x)
    ensures DistinctBy(Insert(x, s, cmp), key)
  {
    if s == [] || cmp(s[|s| - 1], x) <= 0 {
      var r := s + [x];
      forall i, j | 0 <= i < j < |r|
        ensures key(r[i]) != key(r[j])
      {
        if j == |s| {
          assert r[i] in s;
        }
      }
    } else {
      var init, last := s[..|s| - 1], s[|s| - 1];
      assert DistinctBy(init, key) by {
        forall i, j | 0 <= i < j < |init| ensures key(init[i]) != key(init[j]) {
          assert init[i] == s[i] && init[j] == s[j];
        }
      }
      forall y | y in init ensures key(y) != key(x) {
        var k :| 0 <= k < |init| && init[k] == y;
        assert s[k] == y;
      }
      InsertKeepsDistinct(x, init, key, cmp);
      InsertPermutes(x, init, cmp);
      var t := Insert(x, init, cmp);
      forall y | y in t
        ensures key(y) != key(last)
      {
        assert y in multiset(t);
        if y != x {
          assert y in multiset(init);
          var k :| 0 <= k < |init| && init[k] == y;
          assert s[k] == y;
        }
      }
      var r := t + [last];
      forall i, j | 0 <= i < j < |r|
        ensures key(r[i]) != key(r[j])
      {
        if j == |t| {
          assert r[i] in t;
        }
      }
    }
  }
}
