/** The estimation half of `_update_errors` (agents/old/peucrl.py): the
    empirical intracellular transition estimates, the joint estimates as
    products of the matched intracellular ones, and the confidence radius of
    every joint pair. */
module Estimation {
  import opened Codec
  import opened Numerics
  import opened Counting

  /** Row (s, a) of the estimates: transition counts over max(1, visits). */
  method EstimateRow(est: array3<real>, sums: array2<nat>, transitionSums: array3<nat>, s: nat, a: nat)
    requires est.Length0 == transitionSums.Length0 && est.Length1 == transitionSums.Length1
    requires est.Length2 == transitionSums.Length2
    requires s < sums.Length0 && a < sums.Length1 && s < est.Length0 && a < est.Length1
    modifies est
    ensures forall j :: 0 <= j < est.Length2 ==>
      est[s, a, j] == Estimates(TransitionRow(transitionSums, s, a), sums[s, a])[j]
    ensures forall s', a', j :: 0 <= s' < est.Length0 && 0 <= a' < est.Length1 && 0 <= j < est.Length2 && (s' != s || a' != a) ==>
      est[s', a', j] == old(est[s', a', j])
  {
    var d := (if sums[s, a] < 1 then 1 else sums[s, a]) as real;
    for j := 0 to est.Length2
      invariant forall j' :: 0 <= j' < j ==>
        est[s, a, j'] == Estimates(TransitionRow(transitionSums, s, a), sums[s, a])[j']
      invariant forall s', a', j' :: 0 <= s' < est.Length0 && 0 <= a' < est.Length1 && 0 <= j' < est.Length2 && (s' != s || a' != a || j' >= j) ==>
        est[s', a', j'] == old(est[s', a', j'])
    {
      est[s, a, j] := (transitionSums[s, a, j] as real) / d;
    }
  }

  /** Every estimate row of a state-action table, recomputed from its visit and transition counts. */
  method IntraEstimates(est: array3<real>, sums: array2<nat>, transitionSums: array3<nat>)
    requires est.Length0 == transitionSums.Length0 == sums.Length0
    requires est.Length1 == transitionSums.Length1 == sums.Length1
    requires est.Length2 == transitionSums.Length2
    modifies est
    ensures forall s, a, j :: 0 <= s < est.Length0 && 0 <= a < est.Length1 && 0 <= j < est.Length2 ==>
      est[s, a, j] == Estimates(TransitionRow(transitionSums, s, a), sums[s, a])[j]
  {
    for s := 0 to est.Length0
      invariant forall s', a, j :: 0 <= s' < s && 0 <= a < est.Length1 && 0 <= j < est.Length2 ==>
        est[s', a, j] == Estimates(TransitionRow(transitionSums, s', a), sums[s', a])[j]
    {
      for a := 0 to est.Length1
        invariant forall s', a', j :: 0 <= s' < est.Length0 && 0 <= a' < est.Length1 && 0 <= j < est.Length2 && (s' < s || (s' == s && a' < a)) ==>
          est[s', a', j] == Estimates(TransitionRow(transitionSums, s', a'), sums[s', a'])[j]
      {
        EstimateRow(est, sums, transitionSums, s, a);
      }
    }
  }

  /** With conserved counts, every intracellular estimate lies in [0, 1], the
      row of a visited pair sums to 1, and that of an unvisited pair is zero. */
  lemma IntraEstimatesAreDistributions(est: array3<real>, sums: array2<nat>, transitionSums: array3<nat>)
    requires est.Length0 == transitionSums.Length0 == sums.Length0
    requires est.Length1 == transitionSums.Length1 == sums.Length1
    requires est.Length2 == transitionSums.Length2
    requires Conserved(sums, transitionSums)
    requires forall s, a, j :: 0 <= s < est.Length0 && 0 <= a < est.Length1 && 0 <= j < est.Length2 ==>
      est[s, a, j] == Estimates(TransitionRow(transitionSums, s, a), sums[s, a])[j]
    ensures forall s, a, j :: 0 <= s < est.Length0 && 0 <= a < est.Length1 && 0 <= j < est.Length2 ==>
      0.0 <= est[s, a, j] <= 1.0 && (sums[s, a] == 0 ==> est[s, a, j] == 0.0)
    ensures forall s, a :: 0 <= s < est.Length0 && 0 <= a < est.Length1 && sums[s, a] > 0 ==>
      Sum(Row3(est, s, a)) == 1.0
  {
    forall s, a | 0 <= s < est.Length0 && 0 <= a < est.Length1
      ensures forall j :: 0 <= j < est.Length2 ==>
        0.0 <= est[s, a, j] <= 1.0 && (sums[s, a] == 0 ==> est[s, a, j] == 0.0)
      ensures sums[s, a] > 0 ==> Sum(Row3(est, s, a)) == 1.0
    {
      var row := TransitionRow(transitionSums, s, a);
      EstimatesAreDistribution(row, sums[s, a]);
      assert Row3(est, s, a) == Estimates(row, sums[s, a]);
    }
  }

  /** The product, over the cells, of the estimate of each cell's
      (state, action, next state) component. */
  function CellProduct(intra: array3<real>, ss: seq<int>, aa: seq<int>, ns: seq<int>): real
    reads intra
    requires |ss| == |aa| == |ns|
    requires IsDigits(ss, intra.Length0) && IsDigits(aa, intra.Length1) && IsDigits(ns, intra.Length2)
  {
    if ss == [] then 1.0 else intra[ss[0], aa[0], ns[0]] * CellProduct(intra, ss[1..], aa[1..], ns[1..])
  }

  /** The joint estimate of (S, A, N): the product over the cells of S, A and N. */
  function JointEstimate(intra: array3<real>, nCells: nat, S: nat, A: nat, N: nat): real
    reads intra
    requires intra.Length0 > 0 && intra.Length1 > 0 && intra.Length2 == intra.Length0
  {
    CellProduct(intra, ToCellular(S, intra.Length0, nCells), ToCellular(A, intra.Length1, nCells),
      ToCellular(N, intra.Length0, nCells))
  }

  /** Cell c's component of the joint estimate of (S, A, N). */
  function ComponentEstimate(intra: array3<real>, nCells: nat, S: nat, A: nat, N: nat, c: nat): real
    reads intra
    requires intra.Length0 > 0 && intra.Length1 > 0 && intra.Length2 == intra.Length0 && c < nCells
  {
    intra[ToCellular(S, intra.Length0, nCells)[c], ToCellular(A, intra.Length1, nCells)[c],
          ToCellular(N, intra.Length0, nCells)[c]]
  }

  /** Components in [0, 1] give a product in [0, 1]; a zero component gives zero. */
  lemma {:induction false} CellProductBounds(intra: array3<real>, ss: seq<int>, aa: seq<int>, ns: seq<int>)
    requires |ss| == |aa| == |ns|
    requires IsDigits(ss, intra.Length0) && IsDigits(aa, intra.Length1) && IsDigits(ns, intra.Length2)
    requires forall c :: 0 <= c < |ss| ==> 0.0 <= intra[ss[c], aa[c], ns[c]] <= 1.0
    ensures 0.0 <= CellProduct(intra, ss, aa, ns) <= 1.0
    ensures (exists c :: 0 <= c < |ss| && intra[ss[c], aa[c], ns[c]] == 0.0) ==>
      CellProduct(intra, ss, aa, ns) == 0.0
  {
    if ss != [] {
      assert forall c :: 0 <= c < |ss| - 1 ==>
        ss[1..][c] == ss[c + 1] && aa[1..][c] == aa[c + 1] && ns[1..][c] == ns[c + 1];
      CellProductBounds(intra, ss[1..], aa[1..], ns[1..]);
      var head := intra[ss[0], aa[0], ns[0]];
      var rest := CellProduct(intra, ss[1..], aa[1..], ns[1..]);
      ProductBounds(head, rest);
      if exists c :: 0 <= c < |ss| && intra[ss[c], aa[c], ns[c]] == 0.0 {
        var c :| 0 <= c < |ss| && intra[ss[c], aa[c], ns[c]] == 0.0;
        if c > 0 {
          assert intra[ss[1..][c - 1], aa[1..][c - 1], ns[1..][c - 1]] == 0.0;
        }
      }
    }
  }

  lemma ProductBounds(x: real, y: real)
    requires 0.0 <= x <= 1.0 && 0.0 <= y <= 1.0
    ensures 0.0 <= x * y <= 1.0 && x * y <= y
  {
    assert y - x * y == y * (1.0 - x);
    assert y * (1.0 - x) >= 0.0;
  }

  /** Entry (S, A, N) of the joint estimates. */
  method JointEntry(est: array3<real>, intra: array3<real>, nCells: nat, S: nat, A: nat, N: nat)
    requires est != intra && intra.Length0 > 0 && intra.Length1 > 0 && intra.Length2 == intra.Length0
    requires S < est.Length0 && A < est.Length1 && N < est.Length2
    modifies est
    ensures est[S, A, N] == JointEstimate(intra, nCells, S, A, N)
    ensures forall S', A', N' :: 0 <= S' < est.Length0 && 0 <= A' < est.Length1 && 0 <= N' < est.Length2 && (S' != S || A' != A || N' != N) ==>
      est[S', A', N'] == old(est[S', A', N'])
  {
    var ss := ToCellular(S, intra.Length0, nCells);
    var aa := ToCellular(A, intra.Length1, nCells);
    var ns := ToCellular(N, intra.Length0, nCells);
    var p := 1.0;
    var c := nCells;
    // the product is accumulated from the last cell down, which gives the same real
    while c > 0
      invariant 0 <= c <= nCells
      invariant p == CellProduct(intra, ss[c..], aa[c..], ns[c..])
    {
      c := c - 1;
      assert ss[c..][1..] == ss[c + 1..] && aa[c..][1..] == aa[c + 1..] && ns[c..][1..] == ns[c + 1..];
      p := intra[ss[c], aa[c], ns[c]] * p;
    }
    est[S, A, N] := p;
  }

  /** Row (S, A) of the joint estimates. */
  method JointRow(est: array3<real>, intra: array3<real>, nCells: nat, S: nat, A: nat)
    requires est != intra && intra.Length0 > 0 && intra.Length1 > 0 && intra.Length2 == intra.Length0
    requires S < est.Length0 && A < est.Length1
    modifies est
    ensures forall N :: 0 <= N < est.Length2 ==> est[S, A, N] == JointEstimate(intra, nCells, S, A, N)
    ensures forall S', A', N :: 0 <= S' < est.Length0 && 0 <= A' < est.Length1 && 0 <= N < est.Length2 && (S' != S || A' != A) ==>
      est[S', A', N] == old(est[S', A', N])
  {
    for N := 0 to est.Length2
      invariant forall N' :: 0 <= N' < N ==> est[S, A, N'] == JointEstimate(intra, nCells, S, A, N')
      invariant forall S', A', N' :: 0 <= S' < est.Length0 && 0 <= A' < est.Length1 && 0 <= N' < est.Length2 && (S' != S || A' != A || N' >= N) ==>
        est[S', A', N'] == old(est[S', A', N'])
    {
      JointEntry(est, intra, nCells, S, A, N);
    }
  }

  /** Every joint estimate, recomputed from the intracellular ones. */
  method JointEstimates(est: array3<real>, intra: array3<real>, nCells: nat)
    requires est != intra && intra.Length0 > 0 && intra.Length1 > 0 && intra.Length2 == intra.Length0
    modifies est
    ensures forall S, A, N :: 0 <= S < est.Length0 && 0 <= A < est.Length1 && 0 <= N < est.Length2 ==>
      est[S, A, N] == JointEstimate(intra, nCells, S, A, N)
  {
    for S := 0 to est.Length0
      invariant forall S', A, N :: 0 <= S' < S && 0 <= A < est.Length1 && 0 <= N < est.Length2 ==>
        est[S', A, N] == JointEstimate(intra, nCells, S', A, N)
    {
      for A := 0 to est.Length1
        invariant forall S', A', N :: 0 <= S' < est.Length0 && 0 <= A' < est.Length1 && 0 <= N < est.Length2 && (S' < S || (S' == S && A' < A)) ==>
          est[S', A', N] == JointEstimate(intra, nCells, S', A', N)
      {
        JointRow(est, intra, nCells, S, A);
      }
    }
  }

  /** With intracellular estimates in [0, 1], every joint estimate lies in
      [0, 1], and it is zero when some cell's component estimate is zero. */
  lemma JointEstimateBounds(intra: array3<real>, nCells: nat, S: nat, A: nat, N: nat)
    requires intra.Length0 > 0 && intra.Length1 > 0 && intra.Length2 == intra.Length0
    requires forall s, a, j :: 0 <= s < intra.Length0 && 0 <= a < intra.Length1 && 0 <= j < intra.Length2 ==>
      0.0 <= intra[s, a, j] <= 1.0
    ensures 0.0 <= JointEstimate(intra, nCells, S, A, N) <= 1.0
    ensures (exists c :: 0 <= c < nCells && ComponentEstimate(intra, nCells, S, A, N, c) == 0.0) ==>
      JointEstimate(intra, nCells, S, A, N) == 0.0
  {
    CellProductBounds(intra, ToCellular(S, intra.Length0, nCells), ToCellular(A, intra.Length1, nCells),
      ToCellular(N, intra.Length0, nCells));
  }

  /** The rows of the intracellular estimates that the cells of (ss, aa)
      take their components from, one per cell. */
  function CellRows(intra: array3<real>, ss: seq<int>, aa: seq<int>): (rows: seq<seq<real>>)
    reads intra
    requires |ss| == |aa| && IsDigits(ss, intra.Length0) && IsDigits(aa, intra.Length1)
    ensures |rows| == |ss| && forall c :: 0 <= c < |ss| ==> rows[c] == Row3(intra, ss[c], aa[c])
  {
    if ss == [] then [] else [Row3(intra, ss[0], aa[0])] + CellRows(intra, ss[1..], aa[1..])
  }

  /** The product over the cells of row c at digit c of `ns`. */
  function ProductAt(rows: seq<seq<real>>, ns: seq<int>): real
    requires |ns| == |rows| && forall c :: 0 <= c < |rows| ==> 0 <= ns[c] < |rows[c]|
  {
    if rows == [] then 1.0 else rows[0][ns[0]] * ProductAt(rows[1..], ns[1..])
  }

  /** The product over the cells of the sums of their rows. */
  function SumsProduct(rows: seq<seq<real>>): real
  {
    if rows == [] then 1.0 else Sum(rows[0]) * SumsProduct(rows[1..])
  }

  /** The run of blocks, one per entry of `e`, each `row` scaled by that entry. */
  function Blocks(row: seq<real>, e: seq<real>): (r: seq<real>)
  {
    if e == [] then [] else Scaled(row, e[0]) + Blocks(row, e[1..])
  }

  /** The joint row built from one row of length k per cell: entry N is the
      product over the cells of each cell's row at N's digit for that cell.
      Cell 0 is the least significant digit, so the row is a run of blocks of
      cell 0's row, one per joint entry of the other cells. */
  function JointOfRows(rows: seq<seq<real>>, k: nat): (r: seq<real>)
  {
    if rows == [] then [1.0] else Blocks(rows[0], JointOfRows(rows[1..], k))
  }

  lemma {:induction false} JointOfRowsLength(rows: seq<seq<real>>, k: nat)
    requires forall c :: 0 <= c < |rows| ==> |rows[c]| == k
    ensures |JointOfRows(rows, k)| == Pow(k, |rows|)
  {
    if rows != [] {
      JointOfRowsLength(rows[1..], k);
      BlocksLength(rows[0], JointOfRows(rows[1..], k));
    }
  }

  lemma {:induction false} BlocksLength(row: seq<real>, e: seq<real>)
    ensures |Blocks(row, e)| == |row| * |e|
  {
    if e != [] {
      BlocksLength(row, e[1..]);
      MulStep(|row|, |e|);
    }
  }

  /** m added q times: the start of block q when every block has length m. */
  function Offset(m: nat, q: nat): nat
  {
    if q == 0 then 0 else m + Offset(m, q - 1)
  }

  lemma {:induction false} OffsetIsProduct(m: nat, q: nat)
    ensures Offset(m, q) == m * q
  {
    if q > 0 {
      OffsetIsProduct(m, q - 1);
      MulStep(m, q);
    }
  }

  /** Entry d of block q is entry d of `row` scaled by entry q of `e`. */
  lemma {:induction false} BlocksAt(row: seq<real>, e: seq<real>, m: nat, d: nat, q: nat)
    requires |row| == m && d < m && q < |e|
    ensures d + Offset(m, q) < |Blocks(row, e)| && Blocks(row, e)[d + Offset(m, q)] == Scaled(row, e[q])[d]
  {
    if q > 0 {
      BlocksAt(row, e[1..], m, d, q - 1);
      BlocksShift(row, e, m, d + Offset(m, q - 1));
      assert e[1..][q - 1] == e[q];
    }
  }

  /** Past the first block, the blocks are those of the rest of `e`. */
  lemma BlocksShift(row: seq<real>, e: seq<real>, m: nat, j: nat)
    requires |row| == m && |e| > 0 && j < |Blocks(row, e[1..])|
    ensures m + j < |Blocks(row, e)| && Blocks(row, e)[m + j] == Blocks(row, e[1..])[j]
  {
    AppendAt(Scaled(row, e[0]), Blocks(row, e[1..]), j);
  }

  /** Row 0 scaled by the product of the other cells, at the first digit,
      is the product of all the cells. */
  lemma ScaledIsProduct(rows: seq<seq<real>>, ns: seq<int>, rest: real)
    requires |ns| == |rows| > 0 && forall c :: 0 <= c < |rows| ==> 0 <= ns[c] < |rows[c]|
    requires rest == ProductAt(rows[1..], ns[1..])
    ensures Scaled(rows[0], rest)[ns[0]] == ProductAt(rows, ns)
  {}

  lemma AppendAt(a: seq<real>, b: seq<real>, j: nat)
    requires j < |b|
    ensures (a + b)[|a| + j] == b[j]
  {}

  lemma MulStep(m: nat, q: nat)
    requires q > 0
    ensures m * q == m + m * (q - 1)
  {}

  /** Entry N of the joint row is the product at N's digits. */
  lemma {:induction false} JointOfRowsAt(rows: seq<seq<real>>, k: nat, N: nat)
    requires k > 0 && forall c :: 0 <= c < |rows| ==> |rows[c]| == k
    requires N < Pow(k, |rows|) && N < |JointOfRows(rows, k)|
    ensures JointOfRows(rows, k)[N] == ProductAt(rows, ToCellular(N, k, |rows|))
  {
    if rows != [] {
      var n := |rows|;
      var d, q := N % k, N / k;
      DivModBounds(N, k);
      assert Pow(k, n) == k * Pow(k, n - 1);
      assert q < Pow(k, n - 1) by {
        if q >= Pow(k, n - 1) {
          MulMonotone(k, Pow(k, n - 1), q);
        }
      }
      var tail := JointOfRows(rows[1..], k);
      JointOfRowsLength(rows[1..], k);
      JointOfRowsAt(rows[1..], k, q);
      BlocksAt(rows[0], tail, k, d, q);
      OffsetIsProduct(k, q);
      var v := ToCellular(N, k, n);
      assert v[0] == d && v[1..] == ToCellular(q, k, n - 1);
      ScaledIsProduct(rows, v, tail[q]);
      assert JointOfRows(rows, k) == Blocks(rows[0], tail);
    }
  }

  /** The blocks sum as `e` scaled by the row's sum r does. */
  lemma {:induction false} SumBlocksScaled(row: seq<real>, e: seq<real>, r: real)
    requires Sum(row) == r
    ensures Sum(Blocks(row, e)) == Sum(Scaled(e, r))
  {
    if e != [] {
      SumBlocksScaled(row, e[1..], r);
      SumAppend(Scaled(row, e[0]), Blocks(row, e[1..]));
      SumScaled(row, e[0]);
      assert Scaled(e, r)[1..] == Scaled(e[1..], r);
    }
  }

  /** The blocks sum to the row's sum times the sum x of the entries. */
  lemma SumBlocksOf(row: seq<real>, e: seq<real>, x: real)
    requires Sum(e) == x
    ensures Sum(Blocks(row, e)) == Sum(row) * x
  {
    SumBlocksScaled(row, e, Sum(row));
    ScaledSum(e, Sum(row), x);
  }

  /** e scaled by r sums to r * x when e sums to x. */
  lemma ScaledSum(e: seq<real>, r: real, x: real)
    requires Sum(e) == x
    ensures Sum(Scaled(e, r)) == r * x
  {
    SumScaled(e, r);
  }

  /** The radix sum factorises: the joint row sums to the product of the
      sums of the cells' rows. */
  lemma {:induction false} SumJointOfRows(rows: seq<seq<real>>, k: nat)
    ensures Sum(JointOfRows(rows, k)) == SumsProduct(rows)
  {
    if rows != [] {
      SumJointOfRows(rows[1..], k);
      SumBlocksOf(rows[0], JointOfRows(rows[1..], k), SumsProduct(rows[1..]));
    }
  }

  /** With every row summing to 0 or 1, the product of the sums is 1 when
      they all sum to 1, and 0 otherwise. */
  lemma {:induction false} SumsProductOfUnits(rows: seq<seq<real>>)
    requires forall c :: 0 <= c < |rows| ==> Sum(rows[c]) == 1.0 || Sum(rows[c]) == 0.0
    ensures SumsProduct(rows) == if forall c :: 0 <= c < |rows| ==> Sum(rows[c]) == 1.0 then 1.0 else 0.0
  {
    if rows != [] {
      assert forall c :: 0 <= c < |rows| - 1 ==> rows[1..][c] == rows[c + 1];
      SumsProductOfUnits(rows[1..]);
    }
  }

  /** The product of the components is the product at the next-state digits
      of the cells' rows. */
  lemma {:induction false} CellProductOfRows(intra: array3<real>, ss: seq<int>, aa: seq<int>, ns: seq<int>)
    requires |ss| == |aa| == |ns| && intra.Length2 == intra.Length0
    requires IsDigits(ss, intra.Length0) && IsDigits(aa, intra.Length1) && IsDigits(ns, intra.Length2)
    ensures CellProduct(intra, ss, aa, ns) == ProductAt(CellRows(intra, ss, aa), ns)
  {
    if ss != [] {
      CellProductOfRows(intra, ss[1..], aa[1..], ns[1..]);
    }
  }

  /** Row (S, A) of the joint estimates sums to the product, over the cells,
      of the sums of the intracellular rows of the cells' components. */
  lemma JointRowSum(est: array3<real>, intra: array3<real>, nCells: nat, S: nat, A: nat)
    requires intra.Length0 > 0 && intra.Length1 > 0 && intra.Length2 == intra.Length0
    requires S < est.Length0 && A < est.Length1 && est.Length2 == Pow(intra.Length0, nCells)
    requires forall N :: 0 <= N < est.Length2 ==> est[S, A, N] == JointEstimate(intra, nCells, S, A, N)
    ensures Sum(Row3(est, S, A)) ==
      SumsProduct(CellRows(intra, ToCellular(S, intra.Length0, nCells), ToCellular(A, intra.Length1, nCells)))
  {
    var k := intra.Length0;
    var ss, aa := ToCellular(S, k, nCells), ToCellular(A, intra.Length1, nCells);
    var rows := CellRows(intra, ss, aa);
    var joint := JointOfRows(rows, k);
    JointOfRowsLength(rows, k);
    forall N | 0 <= N < est.Length2
      ensures Row3(est, S, A)[N] == joint[N]
    {
      JointOfRowsAt(rows, k, N);
      CellProductOfRows(intra, ss, aa, ToCellular(N, k, nCells));
    }
    assert Row3(est, S, A) == joint;
    SumJointOfRows(rows, k);
  }

  /** Every cell's (state, action) component has been visited. */
  predicate EveryCellVisited(sums: array2<nat>, ss: seq<int>, aa: seq<int>)
    reads sums
    requires |ss| == |aa| && IsDigits(ss, sums.Length0) && IsDigits(aa, sums.Length1)
  {
    forall c :: 0 <= c < |ss| ==> sums[ss[c], aa[c]] > 0
  }

  /** With intracellular rows that sum to 1 when visited and to 0 otherwise,
      row (S, A) of the joint estimates is a distribution exactly when every
      cell's component pair has been visited, and sums to 0 otherwise. */
  lemma JointRowIsDistribution(est: array3<real>, intra: array3<real>, sums: array2<nat>, nCells: nat, S: nat, A: nat)
    requires intra.Length0 > 0 && intra.Length1 > 0 && intra.Length2 == intra.Length0
    requires sums.Length0 == intra.Length0 && sums.Length1 == intra.Length1
    requires S < est.Length0 && A < est.Length1 && est.Length2 == Pow(intra.Length0, nCells)
    requires forall N :: 0 <= N < est.Length2 ==> est[S, A, N] == JointEstimate(intra, nCells, S, A, N)
    requires forall s, a :: 0 <= s < intra.Length0 && 0 <= a < intra.Length1 ==>
      Sum(Row3(intra, s, a)) == if sums[s, a] > 0 then 1.0 else 0.0
    ensures Sum(Row3(est, S, A)) ==
      if EveryCellVisited(sums, ToCellular(S, intra.Length0, nCells), ToCellular(A, intra.Length1, nCells)) then 1.0 else 0.0
  {
    var ss, aa := ToCellular(S, intra.Length0, nCells), ToCellular(A, intra.Length1, nCells);
    JointRowSum(est, intra, nCells, S, A);
    var rows := CellRows(intra, ss, aa);
    SumsProductOfUnits(rows);
    assert (forall c :: 0 <= c < |rows| ==> Sum(rows[c]) == 1.0) <==> EveryCellVisited(sums, ss, aa);
  }

  /** transition_errors[S, A] := radius(visits), where the visit count is
      max(1, the cellular count of the previous episodes). */
  method Errors(errors: array2<real>, counts: array2<nat>, radius: nat -> real)
    requires errors.Length0 == counts.Length0 && errors.Length1 == counts.Length1
    modifies errors
    ensures forall S, A :: 0 <= S < errors.Length0 && 0 <= A < errors.Length1 ==>
      errors[S, A] == radius(if counts[S, A] < 1 then 1 else counts[S, A])
  {
    for S := 0 to errors.Length0
      invariant forall S', A :: 0 <= S' < S && 0 <= A < errors.Length1 ==>
        errors[S', A] == radius(if counts[S', A] < 1 then 1 else counts[S', A])
    {
      for A := 0 to errors.Length1
        invariant forall S', A' :: 0 <= S' < errors.Length0 && 0 <= A' < errors.Length1 && (S' < S || (S' == S && A' < A)) ==>
          errors[S', A'] == radius(if counts[S', A'] < 1 then 1 else counts[S', A'])
      {
        errors[S, A] := radius(if counts[S, A] < 1 then 1 else counts[S, A]);
      }
    }
  }
}
