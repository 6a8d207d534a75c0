/** Min-max scaling of one numeric column, as `MinMaxScaler.fit_transform`
    applies it to a single-column array: the fitted state is the column's minimum
    and maximum, a value `x` becomes `(x - min) / (max - min)`, and a column whose
    maximum equals its minimum divides by 1 instead of by 0. Values are exact reals. */
module Scaling {
  import opened Common

  /** The fitted parameters of one column: what the saved scaler holds. */
  datatype ScalerState = ScalerState(dataMin: real, dataMax: real)

  function ColumnMin(column: seq<real>): (m: real)
    requires |column| > 0
    ensures m in column
    ensures forall i :: 0 <= i < |column| ==> m <= column[i]
  {
    if |column| == 1 then column[0]
    else
      var rest := ColumnMin(column[1..]);
      if column[0] <= rest then column[0] else rest
  }

  function ColumnMax(column: seq<real>): (m: real)
    requires |column| > 0
    ensures m in column
    ensures forall i :: 0 <= i < |column| ==> column[i] <= m
  {
    if |column| == 1 then column[0]
    else
      var rest := ColumnMax(column[1..]);
      if column[0] >= rest then column[0] else rest
  }

  /** The divisor: the data range, or 1 for a constant column. */
  function Range(s: ScalerState): (r: real)
    ensures r != 0.0
    ensures s.dataMin <= s.dataMax ==> r > 0.0
  {
    if s.dataMax == s.dataMin then 1.0 else s.dataMax - s.dataMin
  }

  /** Fitting needs at least one sample; an empty column is an error. */
  function Fit(column: seq<real>): (r: Option<ScalerState>)
    ensures r.None? <==> column == []
    ensures r.Some? ==> r.value.dataMin <= r.value.dataMax
    ensures r.Some? ==> r.value.dataMin in column && r.value.dataMax in column
    ensures r.Some? ==> forall i :: 0 <= i < |column| ==> r.value.dataMin <= column[i] <= r.value.dataMax
  {
    if column == [] then None
    else Some(ScalerState(ColumnMin(column), ColumnMax(column)))
  }

  /** A value's position in the fitted range: only the minimum goes to 0, and
      when the range is not empty a value scales into [0, 1] exactly when it
      lies inside the range. */
  function Transform(s: ScalerState, x: real): (y: real)
    ensures y == 0.0 <==> x == s.dataMin
    ensures s.dataMin < s.dataMax ==> (0.0 <= y <= 1.0 <==> s.dataMin <= x <= s.dataMax)
  {
    UnitQuotient(x - s.dataMin, Range(s));
    (x - s.dataMin) / Range(s)
  }

  /** The value at a position in the fitted range: only 0 gives the minimum,
      and when the range is not empty exactly the positions in [0, 1] give
      values inside the range. */
  function InverseTransform(s: ScalerState, y: real): (x: real)
    ensures x == s.dataMin <==> y == 0.0
    ensures s.dataMin < s.dataMax ==> (s.dataMin <= x <= s.dataMax <==> 0.0 <= y <= 1.0)
  {
    UnitProduct(y, Range(s));
    y * Range(s) + s.dataMin
  }

  /** Dividing by a non-zero divisor gives 0 only for 0, and dividing by a
      positive one gives a value in [0, 1] exactly for dividends in [0, r]. */
  lemma UnitQuotient(d: real, r: real)
    requires r != 0.0
    ensures d / r == 0.0 <==> d == 0.0
    ensures r > 0.0 ==> (0.0 <= d / r <= 1.0 <==> 0.0 <= d <= r)
  {
    var q := d / r;
    assert q * r == d;
    if r > 0.0 {
      if q < 0.0 { assert q * r < 0.0; }
      if q > 1.0 { assert (q - 1.0) * r > 0.0; }
      if 0.0 <= q { ProductNonNegative(q, r); }
      if q <= 1.0 { ProductNonNegative(1.0 - q, r); }
    }
  }

  /** Scaling by a non-zero factor gives 0 only for 0, and scaling by a
      positive one gives a value in [0, r] exactly for factors in [0, 1]. */
  lemma UnitProduct(y: real, r: real)
    requires r != 0.0
    ensures y * r == 0.0 <==> y == 0.0
    ensures r > 0.0 ==> (0.0 <= y * r <= r <==> 0.0 <= y <= 1.0)
  {
    UnitQuotient(y * r, r);
    assert y * r / r == y;
  }

  /** Scaling is undone exactly by the inverse, in both directions. */
  lemma RoundTrip(s: ScalerState, x: real, y: real)
    ensures InverseTransform(s, Transform(s, x)) == x
    ensures Transform(s, InverseTransform(s, y)) == y
  {
    var r := Range(s);
    assert (x - s.dataMin) / r * r == x - s.dataMin;
    assert (y * r + s.dataMin - s.dataMin) / r == y;
  }

  /** A value inside the fitted range scales into [0, 1]; the minimum goes to 0
      and, when the range is not empty, the maximum goes to 1. */
  lemma TransformBounds(s: ScalerState, x: real)
    requires s.dataMin <= x <= s.dataMax
    ensures 0.0 <= Transform(s, x) <= 1.0
    ensures x == s.dataMin ==> Transform(s, x) == 0.0
    ensures x == s.dataMax && s.dataMin < s.dataMax ==> Transform(s, x) == 1.0
  {
    var r := Range(s);
    var y := Transform(s, x);
    assert y * r == x - s.dataMin;
    if s.dataMin < s.dataMax {
      assert r == s.dataMax - s.dataMin;
    }
  }

  /** Scaling keeps the order of values. */
  lemma TransformMonotone(s: ScalerState, x: real, x': real)
    requires s.dataMin <= s.dataMax && x <= x'
    ensures Transform(s, x) <= Transform(s, x')
  {
    QuotientMonotone(x - s.dataMin, x' - s.dataMin, Range(s));
  }

  /** Dividing by a positive divisor keeps the order. */
  lemma QuotientMonotone(d: real, d': real, r: real)
    requires r > 0.0 && d <= d'
    ensures d / r <= d' / r
  {
    var q, q' := d / r, d' / r;
    assert q * r == d && q' * r == d';
    if q > q' {
      ProductPositive(q - q', r);
    }
  }

  /** `fit_transform` on one column: the column scaled by the state fitted to
      it. An empty column cannot be fitted. */
  function FitTransform(column: seq<real>): (r: Option<seq<real>>)
    ensures r.None? <==> column == []
    ensures r.Some? ==> |r.value| == |column|
    ensures r.Some? ==> forall i :: 0 <= i < |column| ==> r.value[i] == Transform(Fit(column).value, column[i])
  {
    match Fit(column)
    case None => None
    case Some(s) => Some(seq(|column|, i requires 0 <= i < |column| => Transform(s, column[i])))
  }

  /** Every scaled value lies in [0, 1], the column's smallest value becomes 0,
      and the scaled column maps back to the original one through the fitted
      state. */
  lemma FitTransformSpec(column: seq<real>)
    requires column != []
    ensures var scaled := FitTransform(column).value;
      (forall i :: 0 <= i < |column| ==> 0.0 <= scaled[i] <= 1.0) &&
      (forall i :: 0 <= i < |column| ==> InverseTransform(Fit(column).value, scaled[i]) == column[i]) &&
      0.0 in scaled
  {
    var s := Fit(column).value;
    var scaled := FitTransform(column).value;
    forall i | 0 <= i < |column|
      ensures 0.0 <= scaled[i] <= 1.0 && InverseTransform(s, scaled[i]) == column[i]
    {
      TransformBounds(s, column[i]);
      RoundTrip(s, column[i], 0.0);
    }
    MinimumScalesToZero(column, s, scaled);
  }

  lemma MinimumScalesToZero(column: seq<real>, s: ScalerState, scaled: seq<real>)
    requires s.dataMin in column && s.dataMin <= s.dataMax
    requires |scaled| == |column|
    requires forall i :: 0 <= i < |column| ==> scaled[i] == Transform(s, column[i])
    ensures 0.0 in scaled
  {
    var k :| 0 <= k < |column| && column[k] == s.dataMin;
    TransformBounds(s, column[k]);
    assert scaled[k] == 0.0;
  }
}
