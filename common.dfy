/**
 * Shared vocabulary of the model: optional results, absolute values and the
 * rectangular grids that stand for NumPy image arrays which the code only reads.
 */
module Common {

  /** The source's `None`-or-value results. */
  datatype Option<T> = None | Some(value: T)

  function AbsInt(x: int): int {
    if x < 0 then -x else x
  }

  function AbsReal(x: real): real {
    if x < 0.0 then -x else x
  }

  /** A read-only H x W image or scalar field, indexed `g[row][column]`. */
  predicate IsGrid<T>(g: seq<seq<T>>, h: int, w: int) {
    |g| == h && forall r :: 0 <= r < h ==> |g[r]| == w
  }

  /** An 8-bit grayscale image: every intensity lies in [0,255]. */
  predicate IsByteGrid(g: seq<seq<int>>, h: int, w: int) {
    IsGrid(g, h, w) && forall r, c :: 0 <= r < h && 0 <= c < w ==> 0 <= g[r][c] <= 255
  }
}

/**
 * Sums, means, extremes, subsequences and ascending order over sequences of
 * reals: the little list algebra that `np.mean`, `sorted` and the gate
 * comparisons rely on.
 */
module Sequences {

  function Sum(s: seq<real>): real
    decreases |s|
  {
    if |s| == 0 then 0.0 else Sum(s[..|s| - 1]) + s[|s| - 1]
  }

  /** `np.mean` of a non-empty list, in exact arithmetic. */
  function Mean(s: seq<real>): real
    requires |s| > 0
  {
    Sum(s) / (|s| as real)
  }

  predicate AllWithin(s: seq<real>, lo: real, hi: real) {
    forall k :: 0 <= k < |s| ==> lo <= s[k] <= hi
  }

  lemma {:induction false} SumWithin(s: seq<real>, lo: real, hi: real)
    requires AllWithin(s, lo, hi)
    ensures (|s| as real) * lo <= Sum(s) <= (|s| as real) * hi
    decreases |s|
  {
    if s != [] {
      var p := s[..|s| - 1];
      assert AllWithin(p, lo, hi) by {
        forall k | 0 <= k < |p| ensures lo <= p[k] <= hi { assert p[k] == s[k]; }
      }
      SumWithin(p, lo, hi);
      assert (|s| as real) * lo == (|p| as real) * lo + lo;
      assert (|s| as real) * hi == (|p| as real) * hi + hi;
    }
  }

  lemma AllWithinConcat(a: seq<real>, b: seq<real>, lo: real, hi: real)
    requires AllWithin(a, lo, hi) && AllWithin(b, lo, hi)
    ensures AllWithin(a + b, lo, hi)
  {
    forall k | 0 <= k < |a + b| ensures lo <= (a + b)[k] <= hi {
      if k >= |a| { assert (a + b)[k] == b[k - |a|]; }
    }
  }

  /** A mean never leaves the interval that holds all the values averaged. */
  lemma MeanWithin(s: seq<real>, lo: real, hi: real)
    requires |s| > 0 && AllWithin(s, lo, hi)
    ensures lo <= Mean(s) <= hi
  {
    SumWithin(s, lo, hi);
  }

  function Minimum(s: seq<real>): (m: real)
    requires |s| > 0
    ensures m in s && forall k :: 0 <= k < |s| ==> m <= s[k]
    decreases |s|
  {
    if |s| == 1 then s[0]
    else
      var m' := Minimum(s[..|s| - 1]);
      assert forall k :: 0 <= k < |s| - 1 ==> s[..|s| - 1][k] == s[k];
      if s[|s| - 1] < m' then s[|s| - 1] else m'
  }

  function Maximum(s: seq<real>): (m: real)
    requires |s| > 0
    ensures m in s && forall k :: 0 <= k < |s| ==> s[k] <= m
    decreases |s|
  {
    if |s| == 1 then s[0]
    else
      var m' := Maximum(s[..|s| - 1]);
      assert forall k :: 0 <= k < |s| - 1 ==> s[..|s| - 1][k] == s[k];
      if s[|s| - 1] > m' then s[|s| - 1] else m'
  }

  /** The mean of a non-empty list lies between its smallest and its largest element. */
  lemma MeanBetweenExtremes(s: seq<real>)
    requires |s| > 0
    ensures Minimum(s) <= Mean(s) <= Maximum(s)
  {
    MeanWithin(s, Minimum(s), Maximum(s));
  }

  /** The elements of `s` whose flag in `keep` is set, in their original order. */
  function Select<T>(s: seq<T>, keep: seq<bool>): (r: seq<T>)
    requires |keep| == |s|
    ensures |r| <= |s|
    decreases |s|
  {
    if |s| == 0 then []
    else Select(s[..|s| - 1], keep[..|s| - 1]) + (if keep[|s| - 1] then [s[|s| - 1]] else [])
  }

  lemma {:induction false} SelectAppend<T>(a: seq<T>, ka: seq<bool>, b: seq<T>, kb: seq<bool>)
    requires |ka| == |a| && |kb| == |b|
    ensures Select(a + b, ka + kb) == Select(a, ka) + Select(b, kb)
    decreases |b|
  {
    if b == [] {
      assert a + b == a && ka + kb == ka;
    } else {
      var b', kb' := b[..|b| - 1], kb[..|b| - 1];
      SelectAppend(a, ka, b', kb');
      assert (a + b)[..|a + b| - 1] == a + b';
      assert (ka + kb)[..|a + b| - 1] == ka + kb';
    }
  }

  lemma ConcatAssoc<T>(a: seq<T>, b: seq<T>, c: seq<T>)
    ensures (a + b) + c == a + (b + c)
  {
  }

  /** `a` is obtained from `b` by deleting elements, keeping the order of the rest. */
  ghost predicate IsSubsequence<T>(a: seq<T>, b: seq<T>) {
    exists keep: seq<bool> :: |keep| == |b| && Select(b, keep) == a
  }

  lemma SubsequenceRefl<T>(a: seq<T>)
    ensures IsSubsequence(a, a)
  {
    var keep := seq(|a|, _ => true);
    SelectAll(a, keep);
  }

  lemma {:induction false} SelectAll<T>(a: seq<T>, keep: seq<bool>)
    requires |keep| == |a| && forall k :: 0 <= k < |keep| ==> keep[k]
    ensures Select(a, keep) == a
    decreases |a|
  {
    if a != [] {
      SelectAll(a[..|a| - 1], keep[..|a| - 1]);
    }
  }

  lemma {:induction false} SelectNone<T>(a: seq<T>, keep: seq<bool>)
    requires |keep| == |a| && forall k :: 0 <= k < |keep| ==> !keep[k]
    ensures Select(a, keep) == []
    decreases |a|
  {
    if a != [] {
      SelectNone(a[..|a| - 1], keep[..|a| - 1]);
    }
  }

  /** Deleting everything leaves the empty list. */
  lemma EmptySubsequence<T>(b: seq<T>)
    ensures IsSubsequence([], b)
  {
    var keep := seq(|b|, _ => false);
    SelectNone(b, keep);
  }

  lemma SubsequenceConcat<T>(a1: seq<T>, b1: seq<T>, a2: seq<T>, b2: seq<T>)
    requires IsSubsequence(a1, b1) && IsSubsequence(a2, b2)
    ensures IsSubsequence(a1 + a2, b1 + b2)
  {
    var k1 :| |k1| == |b1| && Select(b1, k1) == a1;
    var k2 :| |k2| == |b2| && Select(b2, k2) == a2;
    SelectAppend(b1, k1, b2, k2);
    assert |k1 + k2| == |b1 + b2| && Select(b1 + b2, k1 + k2) == a1 + a2;
  }

  /** A subsequence is never longer than the sequence it is taken from. */
  lemma SubsequenceLength<T>(a: seq<T>, b: seq<T>)
    requires IsSubsequence(a, b)
    ensures |a| <= |b|
  {
    var k :| |k| == |b| && Select(b, k) == a;
  }

  predicate Ascending(s: seq<real>) {
    forall i, j :: 0 <= i < j < |s| ==> s[i] <= s[j]
  }

  /** Places `x` in front of the first element of `s` that is not smaller. */
  function Insert(x: real, s: seq<real>): seq<real>
    decreases |s|
  {
    if |s| == 0 || x <= s[0] then [x] + s else [s[0]] + Insert(x, s[1..])
  }

  lemma {:induction false} InsertMultiset(x: real, s: seq<real>)
    ensures multiset(Insert(x, s)) == multiset(s) + multiset{x}
    decreases |s|
  {
    if s != [] && x > s[0] {
      InsertMultiset(x, s[1..]);
      calc {
        multiset(Insert(x, s));
        multiset([s[0]]) + multiset(Insert(x, s[1..]));
        multiset([s[0]]) + multiset(s[1..]) + multiset{x};
        { assert s == [s[0]] + s[1..]; }
        multiset(s) + multiset{x};
      }
    }
  }

  lemma {:induction false} InsertAscending(x: real, s: seq<real>)
    requires Ascending(s)
    ensures Ascending(Insert(x, s))
    decreases |s|
  {
    if s != [] && x > s[0] {
      var t := Insert(x, s[1..]);
      InsertAscending(x, s[1..]);
      InsertMultiset(x, s[1..]);
      forall k | 0 <= k < |t|
        ensures s[0] <= t[k]
      {
        var e := t[k];
        assert e in multiset(t);
        if e != x {
          assert e in multiset(s[1..]);
          var i :| 0 <= i < |s[1..]| && s[1..][i] == e;
          assert s[i + 1] == e;
        }
      }
      assert Insert(x, s) == [s[0]] + t;
    }
  }

  /** Python's `sorted` on a list of floats: an ascending permutation of the input. */
  function SortAscending(s: seq<real>): (r: seq<real>)
    ensures Ascending(r) && multiset(r) == multiset(s) && |r| == |s|
    decreases |s|
  {
    if |s| == 0 then []
    else
      assert s == s[..|s| - 1] + [s[|s| - 1]];
      var sorted := SortAscending(s[..|s| - 1]);
      InsertAscending(s[|s| - 1], sorted);
      InsertMultiset(s[|s| - 1], sorted);
      var r := Insert(s[|s| - 1], sorted);
      assert |r| == |multiset(r)| == |s|;
      r
  }

  lemma HeadIsLeast(a: seq<real>, e: real)
    requires Ascending(a) && a != [] && e in multiset(a)
    ensures a[0] <= e
  {
    assert e in a;
  }

  /** Two ascending arrangements of the same multiset are the same list. */
  lemma {:induction false} AscendingUnique(a: seq<real>, b: seq<real>)
    requires Ascending(a) && Ascending(b) && multiset(a) == multiset(b)
    ensures a == b
    decreases |a|
  {
    assert |a| == |multiset(a)| == |multiset(b)| == |b|;
    if a != [] {
      assert b[0] in multiset(b);
      HeadIsLeast(a, b[0]);
      assert a[0] in multiset(a);
      HeadIsLeast(b, a[0]);
      var a', b' := a[1..], b[1..];
      assert a == [a[0]] + a';
      assert b == [b[0]] + b';
      assert multiset(a') == multiset(b') by {
        assert multiset(a) == multiset{a[0]} + multiset(a');
        assert multiset(b) == multiset{b[0]} + multiset(b');
        assert a[0] == b[0];
        assert multiset(a') == multiset(a) - multiset{a[0]};
        assert multiset(b') == multiset(b) - multiset{b[0]};
      }
      assert Ascending(a') by {
        forall i, j | 0 <= i < j < |a'| ensures a'[i] <= a'[j] { assert a'[i] == a[i + 1] && a'[j] == a[j + 1]; }
      }
      assert Ascending(b') by {
        forall i, j | 0 <= i < j < |b'| ensures b'[i] <= b'[j] { assert b'[i] == b[i + 1] && b'[j] == b[j + 1]; }
      }
      AscendingUnique(a', b');
    }
  }

  /** Sorting forgets the order of its input: permutations sort to the same list. */
  lemma SortIgnoresOrder(s: seq<real>, t: seq<real>)
    requires multiset(s) == multiset(t)
    ensures SortAscending(s) == SortAscending(t)
  {
    AscendingUnique(SortAscending(s), SortAscending(t));
  }
}
