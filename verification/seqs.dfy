/** The array operations the storefront builds everything from: `filter`, `findIndex`,
    `find`, a stable `sort` by a numeric key (newest first), and `reduce` as a sum. */
module Seqs {
  import opened Wrappers

  // ---------------------------------------------------------------- subsequences

  /** `a` can be obtained from `b` by deleting elements, keeping the order of the rest. */
  predicate IsSubsequence<T(==)>(a: seq<T>, b: seq<T>)
    decreases |b|
  {
    |a| == 0
    || (|b| > 0 && ((a[0] == b[0] && IsSubsequence(a[1..], b[1..])) || IsSubsequence(a, b[1..])))
  }

  lemma {:induction false} SubsequenceOfItself<T>(s: seq<T>)
    ensures IsSubsequence(s, s)
    decreases |s|
  {
    if |s| > 0 {
      SubsequenceOfItself(s[1..]);
    }
  }

  // ---------------------------------------------------------------- filter

  /** `s.filter(keep)`: exactly the elements that pass, every copy of them, in their
      original order. */
  function Filter<T(!new)>(s: seq<T>, keep: T -> bool): (r: seq<T>)
    ensures |r| <= |s|
    ensures forall x :: x in r <==> x in s && keep(x)
    decreases |s|
  {
    if |s| == 0 then []
    else
      var rest := Filter(s[1..], keep);
      assert s == [s[0]] + s[1..];
      if keep(s[0]) then [s[0]] + rest else rest
  }

  /** What a filter keeps is a subsequence of its input: the order is preserved. */
  lemma {:induction false} FilterIsSubsequence<T(!new)>(s: seq<T>, keep: T -> bool)
    ensures IsSubsequence(Filter(s, keep), s)
    decreases |s|
  {
    if |s| > 0 {
      var rest := Filter(s[1..], keep);
      FilterIsSubsequence(s[1..], keep);
      if keep(s[0]) {
        assert ([s[0]] + rest)[1..] == rest;
      }
    }
  }

  /** A filter keeps every copy of an element that passes and no copy of one that fails. */
  lemma {:induction false} FilterMultiplicity<T(!new)>(s: seq<T>, keep: T -> bool, x: T)
    ensures multiset(Filter(s, keep))[x] == if keep(x) then multiset(s)[x] else 0
    decreases |s|
  {
    if |s| > 0 {
      FilterMultiplicity(s[1..], keep, x);
      assert s == [s[0]] + s[1..];
    }
  }

  /** Filtering keeps a sequence whole when every element passes. */
  lemma {:induction false} FilterKeepsAll<T(!new)>(s: seq<T>, keep: T -> bool)
    requires forall k :: 0 <= k < |s| ==> keep(s[k])
    ensures Filter(s, keep) == s
    decreases |s|
  {
    if |s| > 0 {
      FilterKeepsAll(s[1..], keep);
      assert [s[0]] + s[1..] == s;
    }
  }

  /** Filtering empties a sequence in which no element passes. */
  lemma {:induction false} FilterDropsAll<T(!new)>(s: seq<T>, keep: T -> bool)
    requires forall k :: 0 <= k < |s| ==> !keep(s[k])
    ensures Filter(s, keep) == []
    decreases |s|
  {
    if |s| > 0 {
      FilterDropsAll(s[1..], keep);
    }
  }

  /** Two tests that agree on every element of a sequence filter it the same way. */
  lemma {:induction false} FilterSameKeep<T(!new)>(s: seq<T>, keep: T -> bool, keep2: T -> bool)
    requires forall k :: 0 <= k < |s| ==> keep(s[k]) == keep2(s[k])
    ensures Filter(s, keep) == Filter(s, keep2)
    decreases |s|
  {
    if |s| > 0 {
      FilterSameKeep(s[1..], keep, keep2);
    }
  }

  /** Filtering distributes over concatenation: the order of what passes is the order of
      the input. */
  lemma {:induction false} FilterConcat<T(!new)>(a: seq<T>, b: seq<T>, keep: T -> bool)
    ensures Filter(a + b, keep) == Filter(a, keep) + Filter(b, keep)
    decreases |a|
  {
    if |a| == 0 {
      assert a + b == b;
    } else {
      assert (a + b)[1..] == a[1..] + b;
      FilterConcat(a[1..], b, keep);
    }
  }

  /** How many elements pass: the `filter(...).length` the order tabs display. */
  function CountIf<T(!new)>(s: seq<T>, keep: T -> bool): nat {
    |Filter(s, keep)|
  }

  lemma {:induction false} CountIfConcat<T(!new)>(a: seq<T>, b: seq<T>, keep: T -> bool)
    ensures CountIf(a + b, keep) == CountIf(a, keep) + CountIf(b, keep)
  {
    FilterConcat(a, b, keep);
  }

  lemma CountIfSingle<T(!new)>(x: T, keep: T -> bool)
    ensures CountIf([x], keep) == if keep(x) then 1 else 0
  {
    assert [x][1..] == [];
  }

  /** Replacing one element moves a count by what the old and new element contribute. */
  lemma CountIfUpdate<T(!new)>(s: seq<T>, i: nat, x: T, keep: T -> bool)
    requires i < |s|
    ensures CountIf(s[i := x], keep) == CountIf(s, keep) - CountIf([s[i]], keep) + CountIf([x], keep)
  {
    var a, b := s[..i], s[i + 1..];
    assert s == a + [s[i]] + b;
    assert s[i := x] == a + [x] + b;
    CountIfConcat(a + [s[i]], b, keep);
    CountIfConcat(a, [s[i]], keep);
    CountIfConcat(a + [x], b, keep);
    CountIfConcat(a, [x], keep);
  }

  /** The same, with the contributions spelled out. */
  lemma CountIfReplace<T(!new)>(s: seq<T>, i: nat, x: T, keep: T -> bool)
    requires i < |s|
    ensures CountIf(s[i := x], keep)
         == CountIf(s, keep) - (if keep(s[i]) then 1 else 0) + (if keep(x) then 1 else 0)
  {
    CountIfUpdate(s, i, x, keep);
    CountIfSingle(s[i], keep);
    CountIfSingle(x, keep);
  }

  // ---------------------------------------------------------------- search

  /** `s.findIndex(p)`, with `None` for `-1`: the FIRST index whose element passes. */
  function FindIndex<T>(s: seq<T>, p: T -> bool): (r: Option<nat>)
    ensures r.Some? ==> r.value < |s| && p(s[r.value])
    ensures r.Some? ==> forall j :: 0 <= j < r.value ==> !p(s[j])
    ensures r.None? <==> forall j :: 0 <= j < |s| ==> !p(s[j])
    decreases |s|
  {
    if |s| == 0 then None
    else if p(s[0]) then Some(0)
    else
      match FindIndex(s[1..], p)
      case None => None
      case Some(i) => Some(i + 1)
  }

  /** `s.find(p)`: the first element that passes. */
  function Find<T>(s: seq<T>, p: T -> bool): (r: Option<T>)
    ensures r.Some? <==> exists k :: 0 <= k < |s| && p(s[k])
    ensures r.Some? ==> r.value in s && p(r.value)
  {
    match FindIndex(s, p)
    case None => None
    case Some(i) => Some(s[i])
  }

  // ---------------------------------------------------------------- newest-first sort

  /** `key` never increases along `s`. */
  predicate SortedDesc<T>(s: seq<T>, key: T -> int) {
    forall i, j :: 0 <= i < j < |s| ==> key(s[i]) >= key(s[j])
  }

  /** Putting `h` in front of a sorted list keeps it sorted when `h`'s key is at least
      the head's. */
  lemma ConsSorted<T>(h: T, t: seq<T>, key: T -> int)
    requires SortedDesc(t, key)
    requires |t| > 0 ==> key(h) >= key(t[0])
    ensures SortedDesc([h] + t, key)
  {
    var r := [h] + t;
    forall i, j | 0 <= i < j < |r|
      ensures key(r[i]) >= key(r[j])
    {
      assert r[j] == t[j - 1];
      if i == 0 {
        assert j - 1 == 0 || key(t[0]) >= key(t[j - 1]);
      } else {
        assert r[i] == t[i - 1];
      }
    }
  }

  /** Places `x` in front of the first element whose key is not larger, so that `x` stays
      ahead of the elements with an equal key. */
  function InsertDesc<T>(x: T, s: seq<T>, key: T -> int): (r: seq<T>)
    requires SortedDesc(s, key)
    ensures SortedDesc(r, key)
    ensures |r| == |s| + 1
    ensures r[0] == x || (|s| > 0 && r[0] == s[0])
    ensures multiset(r) == multiset(s) + multiset{x}
    decreases |s|
  {
    if |s| == 0 || key(s[0]) <= key(x) then
      ConsSorted(x, s, key);
      [x] + s
    else
      assert SortedDesc(s[1..], key);
      var rest := InsertDesc(x, s[1..], key);
      assert |s| > 1 ==> key(s[0]) >= key(s[1]);
      ConsSorted(s[0], rest, key);
      assert s == [s[0]] + s[1..];
      [s[0]] + rest
  }

  /** `s.sort((a, b) => key(b) - key(a))`. JavaScript's sort is stable, so this is an
      insertion sort that keeps equal keys in input order. */
  function SortDesc<T>(s: seq<T>, key: T -> int): (r: seq<T>)
    ensures SortedDesc(r, key)
    ensures multiset(r) == multiset(s)
    ensures |r| == |s|
    decreases |s|
  {
    if |s| == 0 then []
    else
      assert s == [s[0]] + s[1..];
      InsertDesc(s[0], SortDesc(s[1..], key), key)
  }

  /** The elements whose key is `k`. */
  function KeyIs<T>(key: T -> int, k: int): T -> bool {
    x => key(x) == k
  }

  lemma FilterCons<T(!new)>(x: T, t: seq<T>, keep: T -> bool)
    ensures Filter([x] + t, keep) == (if keep(x) then [x] else []) + Filter(t, keep)
  {
    assert ([x] + t)[1..] == t;
  }

  /** Two fronts of which at least one is empty can be swapped. */
  lemma SwapFronts<T>(a: seq<T>, b: seq<T>, rest: seq<T>)
    requires |a| == 0 || |b| == 0
    ensures b + (a + rest) == a + (b + rest)
  {
    if |a| == 0 {
      assert a + rest == rest;
      assert a + (b + rest) == b + rest;
    } else {
      assert b + (a + rest) == a + rest;
      assert b + rest == rest;
    }
  }

  /** Inserting `x` adds it to the elements with its key, ahead of them; the elements with
      any other key keep their order. */
  lemma {:induction false} InsertDescStable<T(!new)>(x: T, s: seq<T>, key: T -> int, k: int)
    requires SortedDesc(s, key)
    ensures Filter(InsertDesc(x, s, key), KeyIs(key, k))
         == (if key(x) == k then [x] else []) + Filter(s, KeyIs(key, k))
    decreases |s|
  {
    var P := KeyIs(key, k);
    var hx: seq<T> := if P(x) then [x] else [];
    assert hx == if key(x) == k then [x] else [];
    if |s| == 0 || key(s[0]) <= key(x) {
      assert InsertDesc(x, s, key) == [x] + s;
      FilterCons(x, s, P);
    } else {
      var r := InsertDesc(x, s[1..], key);
      assert InsertDesc(x, s, key) == [s[0]] + r;
      var hs: seq<T> := if P(s[0]) then [s[0]] else [];
      var f1 := Filter(s[1..], P);
      InsertDescStable(x, s[1..], key, k);
      assert Filter(r, P) == hx + f1;
      FilterCons(s[0], r, P);
      assert Filter([s[0]] + r, P) == hs + (hx + f1);
      FilterCons(s[0], s[1..], P);
      assert [s[0]] + s[1..] == s;
      assert Filter(s, P) == hs + f1;
      assert key(s[0]) > key(x);
      SwapFronts(hx, hs, f1);
    }
  }

  /** Sorting is stable: the orders sharing one date appear in their original order. */
  lemma {:induction false} SortDescStable<T(!new)>(s: seq<T>, key: T -> int, k: int)
    ensures Filter(SortDesc(s, key), KeyIs(key, k)) == Filter(s, KeyIs(key, k))
    decreases |s|
  {
    if |s| > 0 {
      SortDescStable(s[1..], key, k);
      InsertDescStable(s[0], SortDesc(s[1..], key), key, k);
    }
  }

  // ---------------------------------------------------------------- sums

  /** `s.reduce((sum, x) => sum + f(x), 0)`. */
  function SumOf<T>(s: seq<T>, f: T -> int): int
    decreases |s|
  {
    if |s| == 0 then 0 else f(s[0]) + SumOf(s[1..], f)
  }

  lemma {:induction false} SumOfInsert<T>(x: T, s: seq<T>, key: T -> int, f: T -> int)
    requires SortedDesc(s, key)
    ensures SumOf(InsertDesc(x, s, key), f) == f(x) + SumOf(s, f)
    decreases |s|
  {
    if |s| == 0 || key(s[0]) <= key(x) {
      assert ([x] + s)[1..] == s;
    } else {
      var r := InsertDesc(x, s[1..], key);
      assert ([s[0]] + r)[1..] == r;
      SumOfInsert(x, s[1..], key, f);
    }
  }

  /** Sorting does not change a sum. */
  lemma {:induction false} SumOfSort<T>(s: seq<T>, key: T -> int, f: T -> int)
    ensures SumOf(SortDesc(s, key), f) == SumOf(s, f)
    decreases |s|
  {
    if |s| > 0 {
      SumOfSort(s[1..], key, f);
      SumOfInsert(s[0], SortDesc(s[1..], key), key, f);
    }
  }

  /** A sum of non-negative terms is non-negative. */
  lemma {:induction false} SumOfNonNegative<T>(s: seq<T>, f: T -> int)
    requires forall k :: 0 <= k < |s| ==> f(s[k]) >= 0
    ensures SumOf(s, f) >= 0
    decreases |s|
  {
    if |s| > 0 {
      SumOfNonNegative(s[1..], f);
    }
  }
}
