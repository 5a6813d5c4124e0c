/** Order-preserving list combinators used by the client and the server:
    JavaScript's `Array.prototype.filter`, `find` and `map`, and an
    `ORDER BY ... DESC` listing. */
module Seqs {
  import opened Wrappers

  /** Keeps, in order, the elements that satisfy `p` (`Array.prototype.filter`). */
  function Filter<T>(s: seq<T>, p: T -> bool): (r: seq<T>)
    ensures |r| <= |s|
    ensures forall i :: 0 <= i < |r| ==> r[i] in s && p(r[i])
    ensures forall i :: 0 <= i < |s| && p(s[i]) ==> s[i] in r
    decreases |s|
  {
    if |s| == 0 then []
    else
      var init := s[..|s| - 1];
      assert s == init + [s[|s| - 1]];
      var kept := Filter(init, p);
      if p(s[|s| - 1]) then kept + [s[|s| - 1]] else kept
  }

  /** The positions of `s` whose element satisfies `p`: an index-based
      reference definition for what `Filter` keeps. */
  ghost function IndexSet<T>(s: seq<T>, p: T -> bool): set<nat> {
    set i: nat | i < |s| && p(s[i])
  }

  /** Filtering distributes over concatenation, so the relative order of the
      kept elements is the order they had in the input. */
  lemma {:induction false} FilterAppend<T>(a: seq<T>, b: seq<T>, p: T -> bool)
    ensures Filter(a + b, p) == Filter(a, p) + Filter(b, p)
    decreases |b|
  {
    if |b| == 0 {
      assert a + b == a;
    } else {
      var b' := b[..|b| - 1];
      assert (a + b)[..|a + b| - 1] == a + b';
      assert b[..|b| - 1] == b';
      FilterAppend(a, b', p);
    }
  }

  lemma FilterSingleton<T>(x: T, p: T -> bool)
    ensures Filter([x], p) == if p(x) then [x] else []
  {
    assert [x][..0] == [];
  }

  /** Two filters commute on a one-element list. */
  lemma FilterSingletonCommute<T>(x: T, p: T -> bool, q: T -> bool)
    ensures Filter(Filter([x], p), q) == Filter(Filter([x], q), p)
  {
    FilterSingleton(x, p);
    FilterSingleton(x, q);
    assert Filter([], p) == [] && Filter([], q) == [];
  }

  /** Two filters may be applied in either order. */
  lemma {:induction false} FilterCommute<T>(s: seq<T>, p: T -> bool, q: T -> bool)
    ensures Filter(Filter(s, p), q) == Filter(Filter(s, q), p)
    decreases |s|
  {
    if |s| > 0 {
      var init, x := s[..|s| - 1], s[|s| - 1];
      assert s == init + [x];
      FilterCommute(init, p, q);
      FilterAppend(init, [x], p);
      FilterAppend(init, [x], q);
      FilterAppend(Filter(init, p), Filter([x], p), q);
      FilterAppend(Filter(init, q), Filter([x], q), p);
      FilterSingletonCommute(x, p, q);
    }
  }

  /** Filtering a list whose keys are distinct keeps them distinct. */
  lemma {:induction false} FilterKeysDistinct<T, K>(s: seq<T>, key: T -> K, p: T -> bool)
    requires forall i, j :: 0 <= i < j < |s| ==> key(s[i]) != key(s[j])
    ensures forall i, j :: 0 <= i < j < |Filter(s, p)| ==> key(Filter(s, p)[i]) != key(Filter(s, p)[j])
    decreases |s|
  {
    if |s| > 0 {
      var init, x := s[..|s| - 1], s[|s| - 1];
      assert s == init + [x];
      FilterKeysDistinct(init, key, p);
      var kept := Filter(init, p);
      assert forall a, b :: 0 <= a < b < |kept| ==> key(kept[a]) != key(kept[b]);
      forall i | 0 <= i < |kept| ensures key(kept[i]) != key(x) {
        var m :| 0 <= m < |init| && init[m] == kept[i];
        assert s[m] == init[m];
      }
      var r := Filter(s, p);
      assert r == if p(x) then kept + [x] else kept;
      forall i, j | 0 <= i < j < |r| ensures key(r[i]) != key(r[j]) {
        assert r[i] == kept[i];
        if j < |kept| {
          assert r[j] == kept[j];
          assert key(kept[i]) != key(kept[j]);
        } else {
          assert r[j] == x;
          assert key(kept[i]) != key(x);
        }
      }
    }
  }

  /** When every element passes, filtering is the identity. */
  lemma {:induction false} FilterAll<T>(s: seq<T>, p: T -> bool)
    requires forall i :: 0 <= i < |s| ==> p(s[i])
    ensures Filter(s, p) == s
    decreases |s|
  {
    if |s| > 0 {
      FilterAll(s[..|s| - 1], p);
      assert s == s[..|s| - 1] + [s[|s| - 1]];
    }
  }

  /** The number of elements `Filter` keeps is the number of positions whose
      element satisfies `p`. */
  lemma {:induction false} FilterCount<T>(s: seq<T>, p: T -> bool)
    ensures |Filter(s, p)| == |IndexSet(s, p)|
    decreases |s|
  {
    if |s| > 0 {
      var n := |s| - 1;
      var init := s[..n];
      FilterCount(init, p);
      var before := IndexSet(init, p);
      assert IndexSet(s, p) == before + (if p(s[n]) then {n} else {}) by {
        forall i: nat | i < |s|
          ensures i in IndexSet(s, p) <==> i in before + (if p(s[n]) then {n} else {})
        {
          if i < n {
            assert init[i] == s[i];
          }
        }
      }
      assert n !in before;
    }
  }

  /** Three tests that cover every element and never hold together split a
      list into three filters whose lengths add up to its length. */
  lemma {:induction false} FilterPartition<T>(s: seq<T>, p: T -> bool, q: T -> bool, r: T -> bool)
    requires forall i :: 0 <= i < |s| ==> (p(s[i]) || q(s[i]) || r(s[i]))
    requires forall i :: 0 <= i < |s| ==> !(p(s[i]) && q(s[i])) && !(p(s[i]) && r(s[i])) && !(q(s[i]) && r(s[i]))
    ensures |Filter(s, p)| + |Filter(s, q)| + |Filter(s, r)| == |s|
    decreases |s|
  {
    if |s| > 0 {
      var init := s[..|s| - 1];
      assert forall i :: 0 <= i < |init| ==> init[i] == s[i];
      FilterPartition(init, p, q, r);
    }
  }

  /** The position of the first element satisfying `p`
      (`Array.prototype.find`, which returns that element). */
  function FindFirst<T>(s: seq<T>, p: T -> bool): (r: Option<nat>)
    ensures r.Some? ==> r.value < |s| && p(s[r.value])
    ensures r.Some? ==> forall j :: 0 <= j < r.value ==> !p(s[j])
    ensures r.None? <==> forall j :: 0 <= j < |s| ==> !p(s[j])
    decreases |s|
  {
    if |s| == 0 then None
    else if p(s[0]) then Some(0)
    else
      match FindFirst(s[1..], p)
      case None => None
      case Some(k) => Some(k + 1)
  }

  /** Applies `f` to every element, keeping positions (`Array.prototype.map`). */
  function Map<T, U>(s: seq<T>, f: T -> U): (r: seq<U>)
    ensures |r| == |s|
    ensures forall i :: 0 <= i < |s| ==> r[i] == f(s[i])
  {
    seq(|s|, i requires 0 <= i < |s| => f(s[i]))
  }

  /** True iff the keys never increase from left to right. */
  ghost predicate SortedDesc<T>(s: seq<T>, key: T -> int) {
    forall i, j :: 0 <= i < j < |s| ==> key(s[i]) >= key(s[j])
  }

  /** A key no smaller than every key of a sorted list may lead it. */
  lemma ConsSorted<T>(y: T, s: seq<T>, key: T -> int)
    requires SortedDesc(s, key)
    requires forall i :: 0 <= i < |s| ==> key(y) >= key(s[i])
    ensures SortedDesc([y] + s, key)
  {
    var r := [y] + s;
    forall i, j | 0 <= i < j < |r| ensures key(r[i]) >= key(r[j]) {
      assert r[j] == s[j - 1];
      if i > 0 { assert r[i] == s[i - 1]; }
    }
  }

  /** Places `x` in front of the first element whose key is not larger. */
  function InsertDesc<T>(x: T, s: seq<T>, key: T -> int): (r: seq<T>)
    requires SortedDesc(s, key)
    ensures SortedDesc(r, key)
    ensures multiset(r) == multiset(s) + multiset{x}
    ensures forall i :: 0 <= i < |r| ==> r[i] == x || r[i] in s
    decreases |s|
  {
    if |s| == 0 then [x]
    else if key(x) >= key(s[0]) then
      ConsSorted(x, s, key);
      [x] + s
    else
      var rest := InsertDesc(x, s[1..], key);
      assert s == [s[0]] + s[1..];
      ConsSorted(s[0], rest, key);
      [s[0]] + rest
  }

  /** An `ORDER BY key DESC` listing: a permutation of the rows with keys in
      non-increasing order. */
  function SortDesc<T>(s: seq<T>, key: T -> int): (r: seq<T>)
    ensures SortedDesc(r, key)
    ensures multiset(r) == multiset(s)
    ensures |r| == |s|
    decreases |s|
  {
    if |s| == 0 then []
    else
      assert s == [s[0]] + s[1..];
      InsertDesc(s[0], SortDesc(s[1..], key), key)
  }
}
