/** The cellular codec: a joint (cellular) state or action is a vector with one
    digit per cell, and its flat (tabular) index reads that vector as a number in
    base `radix`, digit i being cell i (cell 0 is the least significant digit).
    The repository's own codec helpers are not part of this model; this module
    states the codec they are assumed to implement. */
module Codec {

  /** radix^n */
  function Pow(radix: nat, n: nat): (r: nat)
    ensures radix > 0 ==> r > 0
  {
    if n == 0 then 1 else radix * Pow(radix, n - 1)
  }

  /** Every digit of `v` is a valid intracellular index for base `radix`. */
  predicate IsDigits(v: seq<int>, radix: nat)
  {
    forall i :: 0 <= i < |v| ==> 0 <= v[i] < radix
  }

  /** cellular2tabular: the flat index of a cellular vector. */
  function ToTabular(v: seq<int>, radix: nat): (r: nat)
    requires IsDigits(v, radix)
    ensures r < Pow(radix, |v|)
  {
    if v == [] then 0
    else
      var rest := ToTabular(v[1..], radix);
      assert v[0] + radix * rest <= radix - 1 + radix * (Pow(radix, |v| - 1) - 1) by {
        assert rest <= Pow(radix, |v| - 1) - 1;
        MulMonotone(radix, rest, Pow(radix, |v| - 1) - 1);
      }
      v[0] + radix * rest
  }

  /** tabular2cellular: the cellular vector with `n` digits of a flat index. */
  function ToCellular(flat: nat, radix: nat, n: nat): (v: seq<int>)
    requires radix > 0
    ensures |v| == n && IsDigits(v, radix)
    decreases n
  {
    if n == 0 then []
    else
      var rest := ToCellular(flat / radix, radix, n - 1);
      DivModBounds(flat, radix);
      [flat % radix] + rest
  }

  lemma DivModBounds(x: nat, radix: nat)
    requires radix > 0
    ensures 0 <= x % radix < radix && 0 <= x / radix
    ensures x == radix * (x / radix) + x % radix
  {}

  lemma MulMonotone(k: nat, a: nat, b: nat)
    requires a <= b
    ensures k * a <= k * b
  {}

  /** Decoding a valid flat index and encoding the digits gives the index back. */
  lemma {:induction false} TabularOfCellular(flat: nat, radix: nat, n: nat)
    requires radix > 0 && flat < Pow(radix, n)
    ensures ToTabular(ToCellular(flat, radix, n), radix) == flat
    decreases n
  {
    if n > 0 {
      var v := ToCellular(flat, radix, n);
      var q, d := flat / radix, flat % radix;
      DivModBounds(flat, radix);
      assert Pow(radix, n) == radix * Pow(radix, n - 1);
      assert v[0] == d && v[1..] == ToCellular(q, radix, n - 1);
      assert q < Pow(radix, n - 1) by {
        if q >= Pow(radix, n - 1) {
          MulMonotone(radix, Pow(radix, n - 1), q);
        }
      }
      TabularOfCellular(q, radix, n - 1);
      assert ToTabular(v, radix) == d + radix * q;
    }
  }

  /** Encoding a valid cellular vector and decoding it gives the vector back. */
  lemma {:induction false} CellularOfTabular(v: seq<int>, radix: nat)
    requires radix > 0 && IsDigits(v, radix)
    ensures ToCellular(ToTabular(v, radix), radix, |v|) == v
  {
    if v != [] {
      var tail := v[1..];
      assert IsDigits(tail, radix);
      var rest := ToTabular(tail, radix);
      var flat := ToTabular(v, radix);
      assert flat == v[0] + radix * rest;
      DivModUnique(flat, radix, rest, v[0]);
      CellularOfTabular(tail, radix);
      assert ToCellular(flat, radix, |v|) == [v[0]] + ToCellular(rest, radix, |v| - 1);
      assert v == [v[0]] + tail;
    }
  }

  lemma DivModUnique(x: nat, radix: nat, q: nat, d: nat)
    requires radix > 0 && d < radix && x == d + radix * q
    ensures x % radix == d && x / radix == q
  {
    var q', d' := x / radix, x % radix;
    assert x == radix * q' + d';
    assert radix * (q - q') == d' - d;
    if q > q' {
      MulMonotone(radix, 1, q - q');
    } else if q < q' {
      MulMonotone(radix, 1, q' - q);
    }
  }

  /** The codec is injective on vectors of one length. */
  lemma TabularInjective(v: seq<int>, w: seq<int>, radix: nat)
    requires radix > 0 && IsDigits(v, radix) && IsDigits(w, radix) && |v| == |w|
    requires ToTabular(v, radix) == ToTabular(w, radix)
    ensures v == w
  {
    CellularOfTabular(v, radix);
    CellularOfTabular(w, radix);
  }
}
