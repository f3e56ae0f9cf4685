/** Arithmetic on vectors of reals used by both agents: sums, the maximum and
    minimum of a vector, the set of maximisers (the `allmax` helper and numpy's
    `argwhere(v == amax(v))`), and ascending argsort. */
module Numerics {

  /** Python's sum over a vector. */
  function Sum(s: seq<real>): real
  {
    if s == [] then 0.0 else s[0] + Sum(s[1..])
  }

  /** sum([v * p for (v, p) in zip(value, p)]) */
  function Dot(u: seq<real>, p: seq<real>): real
    requires |u| == |p|
  {
    if u == [] then 0.0 else u[0] * p[0] + Dot(u[1..], p[1..])
  }

  predicate AllNonNegative(s: seq<real>)
  {
    forall i :: 0 <= i < |s| ==> s[i] >= 0.0
  }

  function Max0(x: real): (r: real)
    ensures r >= 0.0 && r >= x && (r == 0.0 || r == x)
  {
    if x > 0.0 then x else 0.0
  }

  function Min1(x: real): (r: real)
    ensures r <= 1.0 && r <= x && (r == 1.0 || r == x)
  {
    if x < 1.0 then x else 1.0
  }

  /** Replacing one entry changes the sum by the difference. */
  lemma {:induction false} SumUpdate(s: seq<real>, i: int, v: real)
    requires 0 <= i < |s|
    ensures Sum(s[i := v]) == Sum(s) - s[i] + v
  {
    if i > 0 {
      assert s[i := v][1..] == s[1..][i - 1 := v];
      SumUpdate(s[1..], i - 1, v);
    } else {
      assert s[i := v][1..] == s[1..];
    }
  }

  /** The sum taken from the back. */
  lemma {:induction false} SumBack(s: seq<real>)
    requires |s| > 0
    ensures Sum(s) == Sum(s[..|s| - 1]) + s[|s| - 1]
  {
    if |s| > 1 {
      assert s[1..][..|s| - 2] == s[..|s| - 1][1..];
      SumBack(s[1..]);
    }
  }

  lemma {:induction false} SumNonNegative(s: seq<real>)
    requires AllNonNegative(s)
    ensures Sum(s) >= 0.0
  {
    if s != [] {
      SumNonNegative(s[1..]);
    }
  }

  /** No entry of a non-negative vector exceeds its sum. */
  lemma {:induction false} EntryBelowSum(s: seq<real>, k: int)
    requires 0 <= k < |s| && AllNonNegative(s)
    ensures s[k] <= Sum(s)
  {
    assert AllNonNegative(s[1..]) by {
      assert forall i :: 0 <= i < |s| - 1 ==> s[1..][i] == s[i + 1];
    }
    SumNonNegative(s[1..]);
    if k > 0 {
      EntryBelowSum(s[1..], k - 1);
    }
  }

  /** A sum whose entries are all zero except entry k is entry k. */
  lemma {:induction false} SumSingle(s: seq<real>, k: int)
    requires 0 <= k < |s|
    requires forall j :: 0 <= j < |s| && j != k ==> s[j] == 0.0
    ensures Sum(s) == s[k]
  {
    if k > 0 {
      SumSingle(s[1..], k - 1);
    } else {
      SumZero(s[1..]);
    }
  }

  lemma {:induction false} SumZero(s: seq<real>)
    requires forall j :: 0 <= j < |s| ==> s[j] == 0.0
    ensures Sum(s) == 0.0
  {
    if s != [] {
      SumZero(s[1..]);
    }
  }

  /** The sum of a concatenation is the sum of the sums. */
  /** A non-empty sum is its first entry plus the sum of the rest. */
  lemma SumCons(s: seq<real>)
    requires s != []
    ensures Sum(s) == s[0] + Sum(s[1..])
  {}

  lemma {:induction false} SumAppend(s: seq<real>, t: seq<real>)
    ensures Sum(s + t) == Sum(s) + Sum(t)
  {
    if s != [] {
      assert (s + t)[1..] == s[1..] + t;
      SumAppend(s[1..], t);
    } else {
      assert s + t == t;
    }
  }

  lemma Distribute(k: real, x: real, y: real)
    ensures k * (x + y) == k * x + k * y
  {}

  /** The vector with every entry multiplied by x. */
  function Scaled(s: seq<real>, x: real): (r: seq<real>)
    ensures |r| == |s| && forall i :: 0 <= i < |s| ==> r[i] == s[i] * x
  {
    if s == [] then [] else [s[0] * x] + Scaled(s[1..], x)
  }

  /** Scaling a vector scales its sum. */
  lemma {:induction false} SumScaled(s: seq<real>, x: real)
    ensures Sum(Scaled(s, x)) == Sum(s) * x
  {
    if s != [] {
      assert Scaled(s, x)[1..] == Scaled(s[1..], x);
      SumScaled(s[1..], x);
    }
  }

  /** The sum of n copies of c. */
  lemma {:induction false} SumConstant(s: seq<real>, c: real)
    requires forall j :: 0 <= j < |s| ==> s[j] == c
    ensures Sum(s) == (|s| as real) * c
  {
    if s != [] {
      SumConstant(s[1..], c);
    }
  }

  /** Python's max over a non-empty vector (its properties are MaxOfIsMax). */
  function MaxOf(s: seq<real>): real
    requires |s| > 0
  {
    if |s| == 1 then s[0]
    else
      var rest := MaxOf(s[1..]);
      if s[0] >= rest then s[0] else rest
  }

  /** The maximum is an entry, and no entry exceeds it. */
  lemma {:induction false} MaxOfIsMax(s: seq<real>)
    requires |s| > 0
    ensures (exists i :: 0 <= i < |s| && s[i] == MaxOf(s)) && forall i :: 0 <= i < |s| ==> s[i] <= MaxOf(s)
  {
    if |s| > 1 {
      MaxOfIsMax(s[1..]);
      assert forall i :: 1 <= i < |s| ==> s[i] == s[1..][i - 1];
      if s[0] < MaxOf(s[1..]) {
        var j :| 0 <= j < |s| - 1 && s[1..][j] == MaxOf(s[1..]);
        assert s[j + 1] == MaxOf(s);
      } else {
        assert s[0] == MaxOf(s);
      }
    } else {
      assert s[0] == MaxOf(s);
    }
  }

  /** Python's min over a non-empty vector (its properties are MinOfIsMin). */
  function MinOf(s: seq<real>): real
    requires |s| > 0
  {
    if |s| == 1 then s[0]
    else
      var rest := MinOf(s[1..]);
      if s[0] <= rest then s[0] else rest
  }

  /** The minimum is an entry, and no entry is below it. */
  lemma {:induction false} MinOfIsMin(s: seq<real>)
    requires |s| > 0
    ensures (exists i :: 0 <= i < |s| && s[i] == MinOf(s)) && forall i :: 0 <= i < |s| ==> MinOf(s) <= s[i]
  {
    if |s| > 1 {
      MinOfIsMin(s[1..]);
      assert forall i :: 1 <= i < |s| ==> s[i] == s[1..][i - 1];
      if s[0] > MinOf(s[1..]) {
        var j :| 0 <= j < |s| - 1 && s[1..][j] == MinOf(s[1..]);
        assert s[j + 1] == MinOf(s);
      } else {
        assert s[0] == MinOf(s);
      }
    } else {
      assert s[0] == MinOf(s);
    }
  }

  /** A vector of n zeros. */
  function Zeros(n: nat): (z: seq<real>)
    ensures |z| == n && forall i :: 0 <= i < n ==> z[i] == 0.0
  {
    seq(n, _ => 0.0)
  }

  /** v - min(v): every entry shifted so that the smallest is 0. */
  function ShiftToZero(s: seq<real>): (r: seq<real>)
    requires |s| > 0
    ensures |r| == |s| && AllNonNegative(r) && exists i :: 0 <= i < |r| && r[i] == 0.0
    ensures forall i, j :: 0 <= i < |s| && 0 <= j < |s| ==> r[i] - r[j] == s[i] - s[j]
  {
    var m := MinOf(s);
    MinOfIsMin(s);
    var r := seq(|s|, i requires 0 <= i < |s| => s[i] - m);
    var k :| 0 <= k < |s| && s[k] == m;
    assert r[k] == 0.0;
    r
  }

  predicate StrictlyIncreasing(idx: seq<int>)
  {
    forall a, b :: 0 <= a < b < |idx| ==> idx[a] < idx[b]
  }

  /** The indices j in [from, |s|) with s[j] == m, in increasing order. */
  function IndicesOf(s: seq<real>, m: real, from: nat): (idx: seq<int>)
    requires from <= |s|
    ensures StrictlyIncreasing(idx)
    ensures forall j :: j in idx <==> from <= j < |s| && s[j] == m
    decreases |s| - from
  {
    if from == |s| then []
    else
      var rest := IndicesOf(s, m, from + 1);
      if s[from] == m then
        assert forall k :: 0 <= k < |rest| ==> rest[k] in rest;
        [from] + rest
      else rest
  }

  /** The `allmax` helper: the maximum of a non-empty vector and, in increasing
      order, every index at which it is attained. */
  function AllMax(s: seq<real>): (r: (real, seq<int>))
    requires |s| > 0
    ensures forall i :: 0 <= i < |s| ==> s[i] <= r.0
    ensures |r.1| > 0 && StrictlyIncreasing(r.1)
    ensures forall j :: j in r.1 <==> 0 <= j < |s| && s[j] == r.0
  {
    var m := MaxOf(s);
    MaxOfIsMax(s);
    var idx := IndicesOf(s, m, 0);
    (m, idx)
  }

  // ----- permutations and ascending argsort -----

  predicate Distinct(idx: seq<int>)
  {
    forall a, b :: 0 <= a < b < |idx| ==> idx[a] != idx[b]
  }

  /** `idx` lists every index of [0, n) exactly once. */
  predicate IsPermutation(idx: seq<int>, n: nat)
  {
    && |idx| == n
    && (forall k :: 0 <= k < |idx| ==> 0 <= idx[k] < n)
    && Distinct(idx)
    && (forall j :: 0 <= j < n ==> j in idx)
  }

  /** `idx` lists indices of `key` in ascending order of their key. */
  predicate SortedBy(idx: seq<int>, key: seq<real>)
  {
    forall a, b :: 0 <= a < b < |idx| && 0 <= idx[a] < |key| && 0 <= idx[b] < |key| ==>
      key[idx[a]] <= key[idx[b]]
  }

  predicate InRange(idx: seq<int>, n: nat)
  {
    forall k :: 0 <= k < |idx| ==> 0 <= idx[k] < n
  }

  /** Insertion of index i into a list sorted by key. */
  function Insert(i: int, xs: seq<int>, key: seq<real>): (r: seq<int>)
    requires 0 <= i < |key| && InRange(xs, |key|)
    ensures |r| == |xs| + 1 && InRange(r, |key|)
    ensures forall j :: j in r <==> j == i || j in xs
  {
    if xs == [] then [i]
    else if key[i] <= key[xs[0]] then [i] + xs
    else [xs[0]] + Insert(i, xs[1..], key)
  }

  lemma {:induction false} InsertSorted(i: int, xs: seq<int>, key: seq<real>)
    requires 0 <= i < |key| && InRange(xs, |key|) && SortedBy(xs, key)
    ensures SortedBy(Insert(i, xs, key), key)
  {
    if xs != [] && key[i] > key[xs[0]] {
      InsertSorted(i, xs[1..], key);
      var r := Insert(i, xs, key);
      var t := Insert(i, xs[1..], key);
      assert r == [xs[0]] + t;
      forall a, b | 0 <= a < b < |r|
        ensures key[r[a]] <= key[r[b]]
      {
        if a == 0 {
          assert r[b] in t;
          assert r[b] == i || r[b] in xs[1..];
          if r[b] != i {
            var k :| 0 <= k < |xs[1..]| && xs[1..][k] == r[b];
            assert xs[k + 1] == r[b];
          }
        }
      }
    }
  }

  lemma {:induction false} InsertDistinct(i: int, xs: seq<int>, key: seq<real>)
    requires 0 <= i < |key| && InRange(xs, |key|) && Distinct(xs) && i !in xs
    ensures Distinct(Insert(i, xs, key))
  {
    if xs != [] && key[i] > key[xs[0]] {
      assert i !in xs[1..];
      InsertDistinct(i, xs[1..], key);
      var r := Insert(i, xs, key);
      var t := Insert(i, xs[1..], key);
      assert r == [xs[0]] + t;
      forall a, b | 0 <= a < b < |r|
        ensures r[a] != r[b]
      {
        if a == 0 {
          assert r[b] in t;
          assert xs[0] !in xs[1..];
        }
      }
    }
  }

  /** The first n indices in ascending order of key (insertion sort). */
  function ArgSortPrefix(key: seq<real>, n: nat): (r: seq<int>)
    requires n <= |key|
    ensures |r| == n && InRange(r, n) && InRange(r, |key|)
    ensures forall j :: 0 <= j < n ==> j in r
  {
    if n == 0 then []
    else
      var rest := ArgSortPrefix(key, n - 1);
      var r := Insert(n - 1, rest, key);
      assert forall k :: 0 <= k < |r| ==> r[k] in r;
      r
  }

  lemma {:induction false} ArgSortPrefixCorrect(key: seq<real>, n: nat)
    requires n <= |key|
    ensures IsPermutation(ArgSortPrefix(key, n), n) && SortedBy(ArgSortPrefix(key, n), key)
  {
    if n > 0 {
      ArgSortPrefixCorrect(key, n - 1);
      var rest := ArgSortPrefix(key, n - 1);
      assert n - 1 !in rest;
      InsertDistinct(n - 1, rest, key);
      InsertSorted(n - 1, rest, key);
    }
  }

  /** numpy's argsort: an ascending ordering of the indices of key. */
  function ArgSort(key: seq<real>): (r: seq<int>)
    ensures IsPermutation(r, |key|) && SortedBy(r, key)
  {
    ArgSortPrefixCorrect(key, |key|);
    ArgSortPrefix(key, |key|)
  }

  /** np.arange(n) */
  function Range(n: nat): (r: seq<int>)
    ensures IsPermutation(r, n) && StrictlyIncreasing(r)
  {
    var r := seq(n, i => i);
    forall j | 0 <= j < n
      ensures j in r
    {
      assert r[j] == j;
    }
    r
  }

  /** a[S, :] as a sequence. */
  function Row2<T>(a: array2<T>, S: nat): (r: seq<T>)
    reads a
    requires S < a.Length0
    ensures |r| == a.Length1 && forall A :: 0 <= A < a.Length1 ==> r[A] == a[S, A]
  {
    seq(a.Length1, A requires 0 <= A < a.Length1 reads a => a[S, A])
  }

  /** a[S, A, :] as a sequence. */
  function Row3<T>(a: array3<T>, S: nat, A: nat): (r: seq<T>)
    reads a
    requires S < a.Length0 && A < a.Length1
    ensures |r| == a.Length2 && forall N :: 0 <= N < a.Length2 ==> r[N] == a[S, A, N]
  {
    seq(a.Length2, N requires 0 <= N < a.Length2 reads a => a[S, A, N])
  }

  /** a[S, :, :] as a sequence of rows. */
  function Plane<T>(a: array3<T>, S: nat): (r: seq<seq<T>>)
    reads a
    requires S < a.Length0
    ensures |r| == a.Length1 && forall A :: 0 <= A < a.Length1 ==> r[A] == Row3(a, S, A)
  {
    seq(a.Length1, A requires 0 <= A < a.Length1 reads a => Row3(a, S, A))
  }

  /** A vector whose entries all equal c has maximum and minimum c. */
  lemma ConstantExtremes(s: seq<real>, c: real)
    requires |s| > 0 && forall i :: 0 <= i < |s| ==> s[i] == c
    ensures MaxOf(s) == c && MinOf(s) == c
  {
    MaxOfIsMax(s);
    MinOfIsMin(s);
  }
}
