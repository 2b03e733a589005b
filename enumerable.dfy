/**
 * The Ruby `Enumerable` combinators the pipelines are built from: `select`, `flatten`/`concat`,
 * `combination(2)` and `sort_by` on an integer key.
 */
module Enumerable {
  import opened Wrappers

  /** `select`: the elements satisfying `p`, in their original order. */
  function Filter<T(==, !new)>(p: T -> bool, s: seq<T>): (r: seq<T>)
    ensures |r| <= |s|
    ensures forall x :: x in r <==> x in s && p(x)
    ensures multiset(r) <= multiset(s)
  {
    if |s| == 0 then []
    else
      assert s == [s[0]] + s[1..];
      (if p(s[0]) then [s[0]] else []) + Filter(p, s[1..])
  }

  /** `flatten` of a list of lists (and `inject(&:concat)` of a non-empty one). */
  function Concat<T(==, !new)>(ss: seq<seq<T>>): (r: seq<T>)
    ensures forall x :: x in r <==> exists i :: 0 <= i < |ss| && x in ss[i]
  {
    if |ss| == 0 then [] else ss[0] + Concat(ss[1..])
  }

  /** `map` with a block that may raise: the first failure is the result, otherwise every value in order. */
  function MapAll<A, B, E>(f: A -> Result<B, E>, s: seq<A>): (r: Result<seq<B>, E>)
    ensures r.Ok? <==> forall k :: 0 <= k < |s| ==> f(s[k]).Ok?
    ensures r.Ok? ==> |r.value| == |s| && forall k :: 0 <= k < |s| ==> f(s[k]) == Ok(r.value[k])
    ensures r.Err? ==> exists k :: 0 <= k < |s| && f(s[k]) == Err(r.error)
  {
    if |s| == 0 then Ok([])
    else
      match f(s[0])
      case Err(e) => Err(e)
      case Ok(v) =>
        match MapAll(f, s[1..])
        case Err(e) => Err(e)
        case Ok(rest) => Ok([v] + rest)
  }

  /** A failing `map` raises the error of the FIRST element `f` fails on: every element before it succeeds. */
  lemma {:induction false} MapAllFailure<A, B, E>(f: A -> Result<B, E>, s: seq<A>) returns (k: nat)
    requires MapAll(f, s).Err?
    ensures k < |s| && f(s[k]) == Err(MapAll(f, s).error)
    ensures forall j :: 0 <= j < k ==> f(s[j]).Ok?
  {
    if f(s[0]).Err? {
      k := 0;
    } else {
      var k' := MapAllFailure(f, s[1..]);
      k := k' + 1;
      forall j | 0 <= j < k ensures f(s[j]).Ok? {
        if j > 0 {
          assert s[j] == s[1..][j - 1];
        }
      }
    }
  }

  /** `select` keeps each element satisfying `p` exactly as often as the input holds it, and no other. */
  lemma {:induction false} FilterCount<T(!new)>(p: T -> bool, s: seq<T>, x: T)
    ensures multiset(Filter(p, s))[x] == if p(x) then multiset(s)[x] else 0
  {
    var q := (y: T) => !p(y);
    FilterPartition(p, q, s);
    if p(x) {
      assert x !in Filter(q, s);
    } else {
      assert x !in Filter(p, s);
    }
  }

  /** Putting one more element in front of either side of a split keeps it a split. */
  lemma {:induction false} SplitStep<T>(x: T, a: seq<T>, b: seq<T>, t: seq<T>)
    requires multiset(a) + multiset(b) == multiset(t)
    ensures multiset([x] + a) + multiset(b) == multiset([x] + t)
    ensures multiset(a) + multiset([x] + b) == multiset([x] + t)
  {
    assert multiset([x] + a) == multiset{x} + multiset(a);
    assert multiset([x] + b) == multiset{x} + multiset(b);
    assert multiset([x] + t) == multiset{x} + multiset(t);
  }

  /** `partition`: the elements satisfying `p` and those satisfying its negation together make up `s`. */
  lemma {:induction false} FilterPartition<T(!new)>(p: T -> bool, q: T -> bool, s: seq<T>)
    requires forall x :: q(x) == !p(x)
    ensures multiset(Filter(p, s)) + multiset(Filter(q, s)) == multiset(s)
    ensures |Filter(p, s)| + |Filter(q, s)| == |s|
  {
    if |s| > 0 {
      FilterPartition(p, q, s[1..]);
      var a, b := Filter(p, s[1..]), Filter(q, s[1..]);
      SplitStep(s[0], a, b, s[1..]);
      assert s == [s[0]] + s[1..];
      if p(s[0]) {
        assert Filter(p, s) == [s[0]] + a;
        assert Filter(q, s) == b;
      } else {
        assert Filter(p, s) == a;
        assert Filter(q, s) == [s[0]] + b;
      }
    }
  }

  /** `combination(2)`: every pair `(s[i], s[j])` with `i < j`, in lexicographic order of `(i, j)`. */
  function Combinations<T>(s: seq<T>): (r: seq<(T, T)>)
  {
    if |s| == 0 then []
    else seq(|s| - 1, k requires 0 <= k < |s| - 1 => (s[0], s[k + 1])) + Combinations(s[1..])
  }

  lemma {:induction false} CombinationsCount<T>(s: seq<T>)
    ensures 2 * |Combinations(s)| == |s| * (|s| - 1)
  {
    if |s| > 0 {
      CombinationsCount(s[1..]);
    }
  }

  /** A pair is produced exactly when it is taken from two positions `i < j` of the list. */
  lemma {:induction false} CombinationsMembership<T>(s: seq<T>, p: (T, T))
    ensures p in Combinations(s) <==> exists i, j :: 0 <= i < j < |s| && p == (s[i], s[j])
  {
    if p in Combinations(s) {
      CombinationsSound(s, p);
    }
    if exists i, j :: 0 <= i < j < |s| && p == (s[i], s[j]) {
      var i, j :| 0 <= i < j < |s| && p == (s[i], s[j]);
      CombinationsComplete(s, i, j);
    }
  }

  /** Every produced pair is taken from two positions `i < j`. */
  lemma {:induction false} CombinationsSound<T>(s: seq<T>, p: (T, T))
    requires p in Combinations(s)
    ensures exists i, j :: 0 <= i < j < |s| && p == (s[i], s[j])
  {
    var head := seq(|s| - 1, k requires 0 <= k < |s| - 1 => (s[0], s[k + 1]));
    assert Combinations(s) == head + Combinations(s[1..]);
    if p in head {
      var k :| 0 <= k < |head| && head[k] == p;
      assert p == (s[0], s[k + 1]);
    } else {
      CombinationsSound(s[1..], p);
      var i, j :| 0 <= i < j < |s[1..]| && p == (s[1..][i], s[1..][j]);
      assert p == (s[i + 1], s[j + 1]);
    }
  }

  /** Every two positions `i < j` give a produced pair. */
  lemma {:induction false} CombinationsComplete<T>(s: seq<T>, i: nat, j: nat)
    requires i < j < |s|
    ensures (s[i], s[j]) in Combinations(s)
  {
    var head := seq(|s| - 1, k requires 0 <= k < |s| - 1 => (s[0], s[k + 1]));
    assert Combinations(s) == head + Combinations(s[1..]);
    if i == 0 {
      assert head[j - 1] == (s[i], s[j]);
    } else {
      CombinationsComplete(s[1..], i - 1, j - 1);
      assert (s[1..][i - 1], s[1..][j - 1]) == (s[i], s[j]);
    }
  }

  /** `combination(2).select(&p)`: every pair `(s[i], s[j])` with `i < j` that satisfies `p`. */
  function PairsWhere<T(==, !new)>(p: ((T, T)) -> bool, s: seq<T>): (r: seq<(T, T)>)
    ensures forall q :: q in r <==> p(q) && exists i, j :: 0 <= i < j < |s| && q == (s[i], s[j])
  {
    var r := Filter(p, Combinations(s));
    assert forall q :: q in Combinations(s) <==> exists i, j :: 0 <= i < j < |s| && q == (s[i], s[j]) by {
      forall q {
        CombinationsMembership(s, q);
      }
    }
    r
  }

  /** Non-decreasing by `key`. */
  ghost predicate SortedBy<T>(s: seq<T>, key: T -> int)
  {
    forall i, j :: 0 <= i < j < |s| ==> key(s[i]) <= key(s[j])
  }

  /** `select` keeps the order of what it keeps. */
  lemma {:induction false} FilterKeepsSorted<T(!new)>(p: T -> bool, s: seq<T>, key: T -> int)
    requires SortedBy(s, key)
    ensures SortedBy(Filter(p, s), key)
  {
    if |s| > 0 {
      FilterKeepsSorted(p, s[1..], key);
      var rest := Filter(p, s[1..]);
      forall j | 0 <= j < |rest| ensures key(s[0]) <= key(rest[j]) {
        assert rest[j] in s[1..];
        var k :| 0 <= k < |s[1..]| && s[1..][k] == rest[j];
        assert s[k + 1] == rest[j];
      }
    }
  }

  function InsertBy<T>(x: T, s: seq<T>, key: T -> int): (r: seq<T>)
    requires SortedBy(s, key)
    ensures SortedBy(r, key)
    ensures multiset(r) == multiset(s) + multiset{x}
    ensures |r| == |s| + 1 && (r[0] == x || (|s| > 0 && r[0] == s[0]))
  {
    if |s| == 0 then [x]
    else if key(x) <= key(s[0]) then [x] + s
    else
      var t := InsertBy(x, s[1..], key);
      assert s == [s[0]] + s[1..];
      assert key(s[0]) <= key(t[0]);
      [s[0]] + t
  }

  /** `sort_by(&key)`: a permutation of `s`, ordered by `key` (ties keep their input order). */
  function SortBy<T>(s: seq<T>, key: T -> int): (r: seq<T>)
    ensures SortedBy(r, key)
    ensures multiset(r) == multiset(s)
  {
    if |s| == 0 then []
    else
      assert s == [s[0]] + s[1..];
      InsertBy(s[0], SortBy(s[1..], key), key)
  }
}
