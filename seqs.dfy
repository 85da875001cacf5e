/** Sequence operations standing for the table operations the dashboard is
    built from: boolean row masks, selection by a key, de-duplication that
    keeps the first occurrence of each key, column sums and a descending sort. */
module Seqs {
  import opened Wrappers

  /** `r` is made of the elements of `s` at the strictly increasing
      positions `idx`: a subsequence of `s`, in its order. */
  ghost predicate PickedAt<T>(r: seq<T>, s: seq<T>, idx: seq<int>) {
    && |idx| == |r|
    && (forall k :: 0 <= k < |idx| ==> 0 <= idx[k] < |s| && r[k] == s[idx[k]])
    && (forall k, l :: 0 <= k < l < |idx| ==> idx[k] < idx[l])
  }

  /** Picking from a prefix of `s` picks from `s`; one more pick at the end stays increasing. */
  lemma PickedSnoc<T>(r: seq<T>, s: seq<T>, idx: seq<int>, x: T)
    requires PickedAt(r, s, idx)
    ensures PickedAt(r, s + [x], idx)
    ensures PickedAt(r + [x], s + [x], idx + [|s|])
  {
    assert forall k :: 0 <= k < |idx| ==> (s + [x])[idx[k]] == s[idx[k]];
  }

  /** Picking from a pick of `s` is a pick of `s`. */
  lemma PickedTwice<T>(r: seq<T>, m: seq<T>, s: seq<T>, inner: seq<int>, outer: seq<int>)
    requires PickedAt(r, m, inner)
    requires PickedAt(m, s, outer)
    ensures exists idx :: PickedAt(r, s, idx)
  {
    var idx := seq(|inner|, k requires 0 <= k < |inner| => outer[inner[k]]);
    assert PickedAt(r, s, idx);
  }

  /** The elements of `s` that satisfy `p`, in their original order. */
  function Filter<T(!new)>(s: seq<T>, p: T -> bool): (r: seq<T>)
    ensures |r| <= |s|
    ensures forall x :: x in r <==> x in s && p(x)
    ensures forall x :: multiset(r)[x] == if p(x) then multiset(s)[x] else 0
    decreases |s|
  {
    if s == [] then []
    else
      var init, last := s[..|s| - 1], s[|s| - 1];
      assert s == init + [last];
      var r := Filter(init, p);
      if p(last) then r + [last] else r
  }

  /** The elements of `s` whose key is `k`, in their original order. */
  function Select<T(!new), K(==)>(s: seq<T>, key: T -> K, k: K): (r: seq<T>)
    ensures |r| <= |s|
    ensures forall x :: x in r <==> x in s && key(x) == k
    decreases |s|
  {
    if s == [] then []
    else
      var init, last := s[..|s| - 1], s[|s| - 1];
      assert s == init + [last];
      var r := Select(init, key, k);
      if key(last) == k then r + [last] else r
  }

  /** Every key that occurs in `s`. */
  ghost function KeySet<T, K>(s: seq<T>, key: T -> K): set<K> {
    set x | x in s :: key(x)
  }

  /** No two elements of `s` share a key. */
  ghost predicate KeysDistinct<T, K>(s: seq<T>, key: T -> K) {
    forall i, j :: 0 <= i < j < |s| ==> key(s[i]) != key(s[j])
  }

  /** No element of `s` occurs twice. */
  ghost predicate Distinct<T>(s: seq<T>) {
    forall i, j :: 0 <= i < j < |s| ==> s[i] != s[j]
  }

  lemma KeySetSnoc<T, K>(s: seq<T>, x: T, key: T -> K)
    ensures KeySet(s + [x], key) == KeySet(s, key) + {key(x)}
  {
    assert forall y :: y in s + [x] <==> y in s || y == x;
  }

  /** The first element of `s` whose key is `k`, if there is one. */
  function FirstWith<T, K(==)>(s: seq<T>, key: T -> K, k: K): (r: Option<T>)
    ensures r.Some? <==> k in KeySet(s, key)
    ensures r.Some? ==> r.value in s && key(r.value) == k
    decreases |s|
  {
    if s == [] then None
    else
      var init, last := s[..|s| - 1], s[|s| - 1];
      assert s == init + [last];
      KeySetSnoc(init, last, key);
      var f := FirstWith(init, key, k);
      if f.Some? then f else if key(last) == k then Some(last) else None
  }

  /** `drop_duplicates(subset=key, keep='first')`: an element is kept when no
      earlier element has its key. */
  function DedupBy<T(!new), K(==)>(s: seq<T>, key: T -> K): (r: seq<T>)
    ensures |r| <= |s|
    ensures KeysDistinct(r, key)
    ensures KeySet(r, key) == KeySet(s, key)
    ensures forall y :: y in r ==> FirstWith(s, key, key(y)) == Some(y)
    decreases |s|
  {
    if s == [] then []
    else
      var init, last := s[..|s| - 1], s[|s| - 1];
      assert s == init + [last];
      KeySetSnoc(init, last, key);
      var r := DedupBy(init, key);
      if FirstWith(init, key, key(last)).Some? then r
      else
        KeySetSnoc(r, last, key);
        r + [last]
  }

  /** Each position in `idx` is the first position in `s` holding its key. */
  ghost predicate FirstPositions<T, K>(s: seq<T>, key: T -> K, idx: seq<int>) {
    forall k, m :: 0 <= k < |idx| && 0 <= m < idx[k] < |s| ==> key(s[m]) != key(s[idx[k]])
  }

  /** A later element changes neither the picks nor their being first. */
  lemma DedupKeeps<T, K>(r: seq<T>, s: seq<T>, idx: seq<int>, x: T, key: T -> K)
    requires PickedAt(r, s, idx) && FirstPositions(s, key, idx)
    ensures PickedAt(r, s + [x], idx) && FirstPositions(s + [x], key, idx)
  {
    PickedSnoc(r, s, idx, x);
    assert forall m :: 0 <= m < |s| ==> (s + [x])[m] == s[m];
  }

  /** An element whose key is new is the first position of that key. */
  lemma DedupAdds<T, K>(r: seq<T>, s: seq<T>, idx: seq<int>, x: T, key: T -> K)
    requires PickedAt(r, s, idx) && FirstPositions(s, key, idx)
    requires key(x) !in KeySet(s, key)
    ensures PickedAt(r + [x], s + [x], idx + [|s|]) && FirstPositions(s + [x], key, idx + [|s|])
  {
    PickedSnoc(r, s, idx, x);
    var t, jdx := s + [x], idx + [|s|];
    assert forall m :: 0 <= m < |s| ==> t[m] == s[m];
    forall k, m | 0 <= k < |jdx| && 0 <= m < jdx[k] < |t| ensures key(t[m]) != key(t[jdx[k]]) {
      if k == |idx| {
        assert t[m] in s;
      } else {
        assert jdx[k] == idx[k];
      }
    }
  }

  /** `Filter` keeps the order of `s`: its result is a subsequence of `s`. */
  lemma {:induction false} FilterInOrder<T(!new)>(s: seq<T>, p: T -> bool)
    ensures exists idx :: PickedAt(Filter(s, p), s, idx)
    decreases |s|
  {
    if s == [] {
      assert PickedAt(Filter(s, p), s, []);
    } else {
      var init, last := s[..|s| - 1], s[|s| - 1];
      assert s == init + [last];
      FilterInOrder(init, p);
      var idx :| PickedAt(Filter(init, p), init, idx);
      PickedSnoc(Filter(init, p), init, idx, last);
      if p(last) {
        assert PickedAt(Filter(s, p), s, idx + [|init|]);
      } else {
        assert PickedAt(Filter(s, p), s, idx);
      }
    }
  }

  /** `Select` keeps the order of `s`: its result is a subsequence of `s`. */
  lemma {:induction false} SelectInOrder<T(!new), K>(s: seq<T>, key: T -> K, k: K)
    ensures exists idx :: PickedAt(Select(s, key, k), s, idx)
    decreases |s|
  {
    if s == [] {
      assert PickedAt(Select(s, key, k), s, []);
    } else {
      var init, last := s[..|s| - 1], s[|s| - 1];
      assert s == init + [last];
      SelectInOrder(init, key, k);
      var idx :| PickedAt(Select(init, key, k), init, idx);
      PickedSnoc(Select(init, key, k), init, idx, last);
      if key(last) == k {
        assert PickedAt(Select(s, key, k), s, idx + [|init|]);
      } else {
        assert PickedAt(Select(s, key, k), s, idx);
      }
    }
  }

  /** `Select` keeps every element with the key as often as it occurs in `s`. */
  lemma {:induction false} SelectMultiplicity<T(!new), K>(s: seq<T>, key: T -> K, k: K)
    ensures forall x :: multiset(Select(s, key, k))[x] == if key(x) == k then multiset(s)[x] else 0
    decreases |s|
  {
    if s != [] {
      var init, last := s[..|s| - 1], s[|s| - 1];
      assert s == init + [last];
      SelectMultiplicity(init, key, k);
    }
  }

  /** `DedupBy` keeps, in the order of `s`, the elements at the first
      position of each key. */
  lemma {:induction false} DedupByInOrder<T(!new), K>(s: seq<T>, key: T -> K)
    ensures exists idx :: PickedAt(DedupBy(s, key), s, idx) && FirstPositions(s, key, idx)
    decreases |s|
  {
    if s == [] {
      assert PickedAt(DedupBy(s, key), s, []) && FirstPositions(s, key, []);
    } else {
      var init, last := s[..|s| - 1], s[|s| - 1];
      assert s == init + [last];
      DedupByInOrder(init, key);
      var r := DedupBy(init, key);
      var idx :| PickedAt(r, init, idx) && FirstPositions(init, key, idx);
      if FirstWith(init, key, key(last)).Some? {
        DedupKeeps(r, init, idx, last, key);
        assert PickedAt(DedupBy(s, key), s, idx) && FirstPositions(s, key, idx);
      } else {
        KeySetSnoc(init, last, key);
        DedupAdds(r, init, idx, last, key);
        assert PickedAt(DedupBy(s, key), s, idx + [|init|]) && FirstPositions(s, key, idx + [|init|]);
      }
    }
  }

  /** Sum of `f` over the elements of `s` (a column sum). */
  function SumOf<T>(s: seq<T>, f: T -> nat): nat
    decreases |s|
  {
    if s == [] then 0 else SumOf(s[..|s| - 1], f) + f(s[|s| - 1])
  }

  /** A 0/1 column that is 1 exactly where `p` holds sums to the number of
      elements satisfying `p`. */
  lemma {:induction false} IndicatorSum<T(!new)>(s: seq<T>, f: T -> nat, p: T -> bool)
    requires forall x :: x in s ==> f(x) == if p(x) then 1 else 0
    ensures SumOf(s, f) == |Filter(s, p)|
    decreases |s|
  {
    if s != [] {
      var init := s[..|s| - 1];
      assert forall x :: x in init ==> x in s;
      IndicatorSum(init, f, p);
    }
  }

  /** Sum, over the keys `ks`, of how many elements of `s` carry that key. */
  function CountsOver<T(!new), K(==)>(s: seq<T>, key: T -> K, ks: seq<K>): nat
    decreases |ks|
  {
    if ks == [] then 0
    else CountsOver(s, key, ks[..|ks| - 1]) + |Select(s, key, ks[|ks| - 1])|
  }

  lemma {:induction false} CountsOverEmpty<T(!new), K>(key: T -> K, ks: seq<K>)
    ensures CountsOver([], key, ks) == 0
    decreases |ks|
  {
    if ks != [] {
      CountsOverEmpty(key, ks[..|ks| - 1]);
    }
  }

  lemma {:induction false} CountsOverSnoc<T(!new), K>(s: seq<T>, x: T, key: T -> K, ks: seq<K>)
    requires Distinct(ks)
    ensures CountsOver(s + [x], key, ks) == CountsOver(s, key, ks) + (if key(x) in ks then 1 else 0)
    decreases |ks|
  {
    if ks != [] {
      var init, k := ks[..|ks| - 1], ks[|ks| - 1];
      assert ks == init + [k];
      CountsOverSnoc(s, x, key, init);
      assert (s + [x])[..|s + [x]| - 1] == s;
      assert key(x) in ks <==> key(x) in init || key(x) == k;
      assert key(x) == k ==> key(x) !in init;
    }
  }

  /** Grouping by a key partitions the elements: when the keys `ks` are
      distinct and cover every key of `s`, the group sizes add up to |s|. */
  lemma {:induction false} CountsOverPartition<T(!new), K>(s: seq<T>, key: T -> K, ks: seq<K>)
    requires Distinct(ks)
    requires forall x :: x in s ==> key(x) in ks
    ensures CountsOver(s, key, ks) == |s|
    decreases |s|
  {
    if s == [] {
      CountsOverEmpty(key, ks);
    } else {
      var init, last := s[..|s| - 1], s[|s| - 1];
      assert s == init + [last];
      CountsOverPartition(init, key, ks);
      CountsOverSnoc(init, last, key, ks);
    }
  }

  /** A table of group counts sums to the `CountsOver` of its keys. */
  lemma {:induction false} SumOfGroupCounts<T(!new), U, K>(r: seq<U>, f: U -> nat, s: seq<T>, key: T -> K, ks: seq<K>)
    requires |r| == |ks|
    requires forall i :: 0 <= i < |r| ==> f(r[i]) == |Select(s, key, ks[i])|
    ensures SumOf(r, f) == CountsOver(s, key, ks)
    decreases |r|
  {
    if r != [] {
      SumOfGroupCounts(r[..|r| - 1], f, s, key, ks[..|ks| - 1]);
    }
  }

  /** A sequence whose keys are distinct has as many keys as elements. */
  lemma {:induction false} DistinctKeysCard<T, K>(s: seq<T>, key: T -> K)
    requires KeysDistinct(s, key)
    ensures |KeySet(s, key)| == |s|
    decreases |s|
  {
    if s != [] {
      var init, last := s[..|s| - 1], s[|s| - 1];
      assert s == init + [last];
      DistinctKeysCard(init, key);
      KeySetSnoc(init, last, key);
      assert key(last) !in KeySet(init, key) by {
        forall y | y in init ensures key(y) != key(last) {
          var i :| 0 <= i < |init| && init[i] == y;
          assert s[i] == y;
        }
      }
    }
  }

  /** There are never more keys than elements. */
  lemma {:induction false} KeySetCardBound<T, K>(s: seq<T>, key: T -> K)
    ensures |KeySet(s, key)| <= |s|
    decreases |s|
  {
    if s != [] {
      var init, last := s[..|s| - 1], s[|s| - 1];
      assert s == init + [last];
      KeySetCardBound(init, key);
      KeySetSnoc(init, last, key);
    }
  }

  /** Two elements sharing a key leave fewer keys than elements. */
  lemma RepeatedKeyShrinks<T, K>(s: seq<T>, key: T -> K, i: int, j: int)
    requires 0 <= i < j < |s| && key(s[i]) == key(s[j])
    ensures |KeySet(s, key)| < |s|
  {
    var rest := s[..j] + s[j + 1..];
    assert s == s[..j] + [s[j]] + s[j + 1..];
    assert forall x :: x in s <==> x in rest || x == s[j];
    assert s[i] in rest by {
      assert rest[i] == s[i];
    }
    assert KeySet(s, key) == KeySet(rest, key);
    KeySetCardBound(rest, key);
  }

  /** Reordering keeps keys distinct. */
  lemma PermutationKeepsDistinct<T, K>(a: seq<T>, b: seq<T>, key: T -> K)
    requires multiset(a) == multiset(b) && KeysDistinct(a, key)
    ensures KeysDistinct(b, key)
  {
    assert |a| == |b| by {
      assert |multiset(a)| == |multiset(b)|;
    }
    assert forall x :: x in a <==> x in b by {
      forall x ensures x in a <==> x in b {
        assert x in a <==> x in multiset(a);
        assert x in b <==> x in multiset(b);
      }
    }
    assert KeySet(a, key) == KeySet(b, key);
    DistinctKeysCard(a, key);
    if i, j :| 0 <= i < j < |b| && key(b[i]) == key(b[j]) {
      RepeatedKeyShrinks(b, key, i, j);
    }
  }

  /** Selecting by one key keeps another key distinct. */
  lemma {:induction false} SelectKeepsDistinct<T(!new), K, J>(s: seq<T>, key: T -> K, k: K, other: T -> J)
    requires KeysDistinct(s, other)
    ensures KeysDistinct(Select(s, key, k), other)
    decreases |s|
  {
    if s != [] {
      var init, last := s[..|s| - 1], s[|s| - 1];
      assert s == init + [last];
      SelectKeepsDistinct(init, key, k, other);
      var r := Select(init, key, k);
      if key(last) == k {
        forall i | 0 <= i < |r| ensures other(r[i]) != other(last) {
          assert r[i] in init;
          var j :| 0 <= j < |init| && init[j] == r[i];
          assert s[j] == r[i];
        }
      }
    }
  }

  /** Two masks that no element satisfies together select at most |s| elements. */
  lemma {:induction false} DisjointFilters<T(!new)>(s: seq<T>, p: T -> bool, q: T -> bool)
    requires forall x :: x in s ==> !(p(x) && q(x))
    ensures |Filter(s, p)| + |Filter(s, q)| <= |s|
    decreases |s|
  {
    if s != [] {
      var init := s[..|s| - 1];
      assert forall x :: x in init ==> x in s;
      DisjointFilters(init, p, q);
    }
  }

  /** A distinct sequence has as many members as elements. */
  lemma {:induction false} DistinctCard<T>(s: seq<T>)
    requires Distinct(s)
    ensures |set x | x in s| == |s|
    decreases |s|
  {
    if s != [] {
      var init, last := s[..|s| - 1], s[|s| - 1];
      assert s == init + [last];
      DistinctCard(init);
      assert (set x | x in s) == (set x | x in init) + {last};
      assert last !in init by {
        forall i | 0 <= i < |init| ensures init[i] != last {
          assert s[i] == init[i];
        }
      }
    }
  }

  /** In a distinct sequence every element occurs exactly once. */
  lemma {:induction false} DistinctOnce<T>(s: seq<T>, x: T)
    requires Distinct(s)
    ensures multiset(s)[x] == if x in s then 1 else 0
    decreases |s|
  {
    if s != [] {
      var init, last := s[..|s| - 1], s[|s| - 1];
      assert s == init + [last];
      DistinctOnce(init, x);
      assert last !in init by {
        forall i | 0 <= i < |init| ensures init[i] != last {
          assert s[i] == init[i];
        }
      }
    }
  }

  /** Scores never increase along `s`. */
  ghost predicate NonIncreasing<T>(s: seq<T>, score: T -> int) {
    forall i, j :: 0 <= i < j < |s| ==> score(s[i]) >= score(s[j])
  }

  /** Everything in a permutation of `s[1..] + [x]` scores at most `s[0]`. */
  lemma HeadBoundsRest<T>(s: seq<T>, x: T, t: seq<T>, score: T -> int)
    requires s != [] && NonIncreasing(s, score) && score(x) <= score(s[0])
    requires multiset(t) == multiset(s[1..]) + multiset{x}
    ensures forall y :: y in t ==> score(y) <= score(s[0])
  {
    forall y | y in t ensures score(y) <= score(s[0]) {
      assert y in multiset(t);
      if y != x {
        assert y in multiset(s[1..]);
        var j :| 0 <= j < |s[1..]| && s[1..][j] == y;
        assert s[j + 1] == y;
      }
    }
  }

  /** Puts `x` after every element of `s` that scores at least as high. */
  function InsertDesc<T>(x: T, s: seq<T>, score: T -> int): (r: seq<T>)
    requires NonIncreasing(s, score)
    ensures NonIncreasing(r, score)
    ensures multiset(r) == multiset(s) + multiset{x}
    decreases |s|
  {
    if s == [] then [x]
    else if score(x) > score(s[0]) then [x] + s
    else
      var t := InsertDesc(x, s[1..], score);
      assert s == [s[0]] + s[1..];
      HeadBoundsRest(s, x, t, score);
      [s[0]] + t
  }

  /** `sort_values(score, ascending=False)`: a permutation of `s` in
      non-increasing order of `score`. */
  function SortDesc<T>(s: seq<T>, score: T -> int): (r: seq<T>)
    ensures NonIncreasing(r, score)
    ensures multiset(r) == multiset(s)
    decreases |s|
  {
    if s == [] then []
    else
      assert s == s[..|s| - 1] + [s[|s| - 1]];
      InsertDesc(s[|s| - 1], SortDesc(s[..|s| - 1], score), score)
  }
}
