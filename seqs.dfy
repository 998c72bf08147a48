/** Python list idioms the pipeline relies on: slicing (`xs[:n]`), order-preserving
    deduplication (`list(dict.fromkeys(xs))`) and the stable descending sort behind
    `sorted(..., reverse=True)` and `Counter.most_common`. */
module Seqs {

  predicate NoDuplicates<T(==)>(xs: seq<T>) {
    forall i, j | 0 <= i < j < |xs| :: xs[i] != xs[j]
  }

  /** Length of the slice `xs[:n]` of a list of length `len`. */
  function SliceLength(len: nat, n: int): nat {
    if n >= 0 then (if n <= len then n else len)
    else if len + n >= 0 then len + n else 0
  }

  /** `xs[:n]`; a negative `n` drops that many elements from the end. */
  function Take<T>(xs: seq<T>, n: int): (r: seq<T>)
    ensures |r| == SliceLength(|xs|, n)
    ensures n >= 0 ==> |r| <= n
    ensures r == xs[..|r|]
  {
    xs[..SliceLength(|xs|, n)]
  }

  /** Concatenation regroups: `x` before a split sequence is `x` joined to its first
      part, then the second. */
  lemma AppendAssoc<T>(x: seq<T>, ys: seq<T>, ya: seq<T>, yb: seq<T>)
    requires ys == ya + yb
    ensures x + ys == (x + ya) + yb
  {
  }

  /** Some element maps to `y` (with `extra` holding) exactly when the first does or
      one of the rest does. */
  lemma MappedAtHead<T, U>(xs: seq<T>, f: T -> U, y: U, extra: bool)
    requires xs != []
    ensures (exists i | 0 <= i < |xs| :: f(xs[i]) == y && extra)
      <==> (f(xs[0]) == y && extra) || exists i | 0 <= i < |xs[1..]| :: f(xs[1..][i]) == y && extra
  {
    if exists i | 0 <= i < |xs| :: f(xs[i]) == y && extra {
      var i :| 0 <= i < |xs| && f(xs[i]) == y && extra;
      if i > 0 {
        assert f(xs[1..][i - 1]) == y;
      }
    }
    if exists i | 0 <= i < |xs[1..]| :: f(xs[1..][i]) == y && extra {
      var i :| 0 <= i < |xs[1..]| && f(xs[1..][i]) == y && extra;
      assert f(xs[i + 1]) == y;
    }
  }

  /** The prefix as long as the whole sequence is the sequence. */
  lemma WholePrefix<T>(xs: seq<T>)
    ensures xs[..|xs|] == xs
  {
  }

  lemma TakeNoDuplicates<T>(xs: seq<T>, n: int)
    requires NoDuplicates(xs)
    ensures NoDuplicates(Take(xs, n))
  {
  }

  /** Position of the first occurrence of `x` in `xs`. */
  function FirstIndex<T(==)>(xs: seq<T>, x: T): (k: nat)
    requires x in xs
    ensures k < |xs| && xs[k] == x && x !in xs[..k]
  {
    if xs[0] == x then 0
    else
      var k' := FirstIndex(xs[1..], x);
      assert xs[..k' + 1] == [xs[0]] + xs[1..][..k'];
      1 + k'
  }

  lemma FirstIndexUnique<T>(xs: seq<T>, x: T, k: nat)
    requires k < |xs| && xs[k] == x && x !in xs[..k]
    ensures FirstIndex(xs, x) == k
  {
  }

  lemma FirstIndexInPrefix<T>(xs: seq<T>, n: nat, x: T)
    requires n <= |xs| && x in xs[..n]
    ensures FirstIndex(xs, x) == FirstIndex(xs[..n], x)
  {
    var k := FirstIndex(xs[..n], x);
    assert xs[..k] == xs[..n][..k];
    FirstIndexUnique(xs, x, k);
  }

  /** `list(dict.fromkeys(xs))`: every element once, in order of first occurrence. */
  function Dedupe<T(==)>(xs: seq<T>): (r: seq<T>)
    ensures NoDuplicates(r)
    ensures forall x | x in r :: x in xs
    ensures forall x | x in xs :: x in r
    ensures forall i, j | 0 <= i < j < |r| :: FirstIndex(xs, r[i]) < FirstIndex(xs, r[j])
    decreases |xs|
  {
    if xs == [] then []
    else
      var init := xs[..|xs| - 1];
      var d := Dedupe(init);
      var x := xs[|xs| - 1];
      FirstIndexOfInit(xs);
      assert xs == init + [x];
      if x in d then d
      else
        FirstIndexUnique(xs, x, |xs| - 1);
        d + [x]
  }

  /** Dropping the last element keeps the first occurrence of everything before it. */
  lemma FirstIndexOfInit<T>(xs: seq<T>)
    requires xs != []
    ensures forall y | y in xs[..|xs| - 1] :: FirstIndex(xs, y) == FirstIndex(xs[..|xs| - 1], y) < |xs| - 1
  {
    forall y | y in xs[..|xs| - 1] ensures FirstIndex(xs, y) == FirstIndex(xs[..|xs| - 1], y) < |xs| - 1 {
      FirstIndexInPrefix(xs, |xs| - 1, y);
    }
  }

  /** `list(dict.fromkeys(xs))[:n]` holds each element once, and only elements of `xs`. */
  lemma TakeOfDedupe<T>(xs: seq<T>, n: int)
    ensures NoDuplicates(Take(Dedupe(xs), n))
    ensures forall x | x in Take(Dedupe(xs), n) :: x in xs
  {
    TakeNoDuplicates(Dedupe(xs), n);
  }

  /** The elements of a duplicate-free list, as a set, have as many members as it has. */
  lemma {:induction false} DistinctCardinality<T>(xs: seq<T>)
    requires NoDuplicates(xs)
    ensures |set x | x in xs| == |xs|
  {
    if xs != [] {
      var init := xs[..|xs| - 1];
      var last := xs[|xs| - 1];
      assert NoDuplicates(init);
      DistinctCardinality(init);
      assert last !in init by {
        forall i | 0 <= i < |init| ensures init[i] != last {
          assert xs[i] != xs[|xs| - 1];
        }
      }
      assert xs == init + [last];
      assert (set x | x in xs) == (set x | x in init) + {last};
    }
  }

  /** `list(s)` for a set: every member once, in an order the model leaves open (a
      Python set of strings iterates in an order that depends on string hashing). */
  method ListOfSet<T>(s: set<T>) returns (xs: seq<T>)
    ensures NoDuplicates(xs)
    ensures forall x | x in xs :: x in s
    ensures forall x | x in s :: x in xs
    ensures |xs| == |s|
  {
    xs := [];
    var rest := s;
    while rest != {}
      invariant NoDuplicates(xs)
      invariant forall x | x in xs :: x in s && x !in rest
      invariant forall x | x in s :: x in xs || x in rest
      invariant rest <= s
      decreases |rest|
    {
      var x :| x in rest;
      xs := xs + [x];
      rest := rest - {x};
    }
    DistinctCardinality(xs);
    assert (set x | x in xs) == s;
  }

  /** Stable descending order: `a` comes before `b` when its key is larger, or the
      keys are equal and `a` came first. */
  predicate RankedBefore(keys: seq<real>, a: nat, b: nat)
    requires a < |keys| && b < |keys|
  {
    keys[a] > keys[b] || (keys[a] == keys[b] && a < b)
  }

  /** Neighbours are in stable descending order; see SortedPairwise. */
  predicate SortedDesc(keys: seq<real>, p: seq<nat>) {
    && (forall i | 0 <= i < |p| :: p[i] < |keys|)
    && (forall i | 0 <= i < |p| - 1 :: RankedBefore(keys, p[i], p[i + 1]))
  }

  lemma {:induction false} SortedPairwise(keys: seq<real>, p: seq<nat>)
    requires SortedDesc(keys, p)
    ensures forall i, j | 0 <= i < j < |p| :: RankedBefore(keys, p[i], p[j])
  {
    if |p| > 1 {
      SortedPairwise(keys, p[1..]);
      forall j | 1 < j < |p| ensures RankedBefore(keys, p[0], p[j]) {
        assert RankedBefore(keys, p[1], p[j]) by { assert p[1..][0] == p[1] && p[1..][j - 1] == p[j]; }
      }
      forall i, j | 0 <= i < j < |p| ensures RankedBefore(keys, p[i], p[j]) {
        if i > 0 { assert p[1..][i - 1] == p[i] && p[1..][j - 1] == p[j]; }
      }
    }
  }

  lemma SortedCons(keys: seq<real>, a: nat, s: seq<nat>)
    requires a < |keys| && SortedDesc(keys, s)
    requires s != [] ==> RankedBefore(keys, a, s[0])
    ensures SortedDesc(keys, [a] + s)
  {
    var r := [a] + s;
    assert forall i | 1 <= i < |r| :: r[i] == s[i - 1];
  }

  function InsertRanked(keys: seq<real>, x: nat, p: seq<nat>): (r: seq<nat>)
    requires x < |keys| && SortedDesc(keys, p)
    requires forall i | 0 <= i < |p| :: p[i] < x
    ensures SortedDesc(keys, r)
    ensures |r| == |p| + 1 && (r[0] == x || (p != [] && r[0] == p[0]))
    ensures forall i | 0 <= i < |r| :: r[i] <= x
    decreases |p|
  {
    if p == [] then [x]
    else if keys[x] > keys[p[0]] then
      SortedCons(keys, x, p);
      [x] + p
    else
      assert SortedDesc(keys, p[1..]) by {
        assert forall i | 0 <= i < |p| - 1 :: p[1..][i] == p[i + 1];
      }
      var rest := InsertRanked(keys, x, p[1..]);
      SortedCons(keys, p[0], rest);
      [p[0]] + rest
  }

  /** Inserting adds `x` and keeps every element of `p`, and nothing else. */
  lemma {:induction false} InsertRankedMembers(keys: seq<real>, x: nat, p: seq<nat>)
    requires x < |keys| && SortedDesc(keys, p)
    requires forall i | 0 <= i < |p| :: p[i] < x
    ensures forall y :: y in InsertRanked(keys, x, p) <==> y in p || y == x
    decreases |p|
  {
    if p != [] && !(keys[x] > keys[p[0]]) {
      assert SortedDesc(keys, p[1..]) by {
        assert forall i | 0 <= i < |p| - 1 :: p[1..][i] == p[i + 1];
      }
      InsertRankedMembers(keys, x, p[1..]);
      assert p == [p[0]] + p[1..];
    }
  }

  /** `x` is larger than every element of `p`, so inserting it creates no repeat. */
  lemma {:induction false} InsertRankedDistinct(keys: seq<real>, x: nat, p: seq<nat>)
    requires x < |keys| && SortedDesc(keys, p) && NoDuplicates(p)
    requires forall i | 0 <= i < |p| :: p[i] < x
    ensures NoDuplicates(InsertRanked(keys, x, p))
    decreases |p|
  {
    var r := InsertRanked(keys, x, p);
    if p == [] {
    } else if keys[x] > keys[p[0]] {
      assert forall i | 1 <= i < |r| :: r[i] == p[i - 1];
    } else {
      var t := p[1..];
      assert SortedDesc(keys, t) by {
        assert forall i | 0 <= i < |t| - 1 :: t[i] == p[i + 1];
      }
      assert NoDuplicates(t) by {
        assert forall i | 0 <= i < |t| :: t[i] == p[i + 1];
      }
      InsertRankedDistinct(keys, x, t);
      InsertRankedMembers(keys, x, t);
      var rest := InsertRanked(keys, x, t);
      assert p[0] !in t by {
        assert forall i | 0 <= i < |t| :: t[i] == p[i + 1];
      }
      assert p[0] !in rest;
      assert forall i | 1 <= i < |r| :: r[i] == rest[i - 1];
    }
  }

  /** The positions `0..n-1` in stable descending order of their keys. */
  function RankPrefix(keys: seq<real>, n: nat): (p: seq<nat>)
    requires n <= |keys|
    ensures SortedDesc(keys, p)
    ensures |p| == n
    ensures forall i | 0 <= i < |p| :: p[i] < n
  {
    if n == 0 then []
    else InsertRanked(keys, n - 1, RankPrefix(keys, n - 1))
  }

  /** `RankPrefix(keys, n)` lists each of `0..n-1` exactly once. */
  lemma {:induction false} RankPrefixPermutation(keys: seq<real>, n: nat)
    requires n <= |keys|
    ensures NoDuplicates(RankPrefix(keys, n))
    ensures forall k | 0 <= k < n :: k in RankPrefix(keys, n)
  {
    if n > 0 {
      var p' := RankPrefix(keys, n - 1);
      RankPrefixPermutation(keys, n - 1);
      InsertRankedDistinct(keys, n - 1, p');
      InsertRankedMembers(keys, n - 1, p');
    }
  }

  /** The first `n` of a listing of a set hold no repeats, only members, and as many as
      a slice of a list of the set's size holds. */
  lemma TakeOfListing<T>(xs: seq<T>, s: set<T>, n: int)
    requires NoDuplicates(xs)
    requires forall x | x in xs :: x in s
    requires forall x | x in s :: x in xs
    ensures NoDuplicates(Take(xs, n))
    ensures |Take(xs, n)| == SliceLength(|s|, n)
    ensures forall x | x in Take(xs, n) :: x in s
  {
    DistinctCardinality(xs);
    assert (set x | x in xs) == s;
    TakeNoDuplicates(xs, n);
  }

  /** The positions of `keys` in the order a stable descending sort puts them:
      a permutation of `0..|keys|-1`, larger keys first, equal keys in input order. */
  function StableRank(keys: seq<real>): (p: seq<nat>)
    ensures |p| == |keys|
    ensures SortedDesc(keys, p)
    ensures forall i, j | 0 <= i < j < |p| :: RankedBefore(keys, p[i], p[j])
    ensures NoDuplicates(p)
    ensures forall k | 0 <= k < |keys| :: k in p
  {
    RankPrefixPermutation(keys, |keys|);
    SortedPairwise(keys, RankPrefix(keys, |keys|));
    RankPrefix(keys, |keys|)
  }

  /** `sorted(range(len(keys)), key=..., reverse=True)[:n]`: the positions of the `n`
      largest keys (as a Python slice counts them), larger first, equal keys in input
      order, and every position left out ranks after every position kept: its key is
      not larger, and on equal keys it comes later in the input. */
  function TopRanked(keys: seq<real>, n: int): (idx: seq<nat>)
    ensures |idx| == SliceLength(|keys|, n)
    ensures NoDuplicates(idx)
    ensures forall i | 0 <= i < |idx| :: idx[i] < |keys|
    ensures forall i, j | 0 <= i < j < |idx| :: RankedBefore(keys, idx[i], idx[j])
    ensures forall k, i | 0 <= k < |keys| && k !in idx && 0 <= i < |idx| :: keys[k] <= keys[idx[i]]
    ensures forall k, i | 0 <= k < |keys| && k !in idx && 0 <= i < |idx| :: RankedBefore(keys, idx[i], k)
  {
    TakeNoDuplicates(StableRank(keys), n);
    RankPrefixDominates(keys, n);
    Take(StableRank(keys), n)
  }

  lemma RankPrefixDominates(keys: seq<real>, n: int)
    ensures var idx := Take(StableRank(keys), n);
      forall k, i | 0 <= k < |keys| && k !in idx && 0 <= i < |idx| :: RankedBefore(keys, idx[i], k)
  {
    var p := StableRank(keys);
    var idx := Take(p, n);
    forall k, i | 0 <= k < |keys| && k !in idx && 0 <= i < |idx| ensures RankedBefore(keys, idx[i], k) {
      assert k in p;
      var m :| 0 <= m < |p| && p[m] == k;
      assert m >= |idx| by {
        assert forall j | 0 <= j < |idx| :: idx[j] == p[j];
      }
      assert RankedBefore(keys, p[i], p[m]);
    }
  }
}
