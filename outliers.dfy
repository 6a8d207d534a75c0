/** The two-sided outlier trim of `preprocess_raw_data`. For every sale the price
    change `delta = close + concessions - list` is computed; rows whose delta is at
    or above the nearest-rank quantile at `1 - t` are removed first, then the
    quantile at `t` is taken over the rows that are left, and rows at or below it
    are removed too. Prices are exact reals. */
module Outliers {
  import opened Common
  import opened Rounding

  /** A cleaned sale: the prices the trim looks at and the rest of its fields. */
  datatype Sale<A> = Sale(fields: A, listPrice: real, closePrice: real, concessions: real)

  /** The "Change From List Price" column. */
  function Delta<A>(s: Sale<A>): real
  {
    s.closePrice + s.concessions - s.listPrice
  }

  function Deltas<A>(rows: seq<Sale<A>>): (d: seq<real>)
    ensures |d| == |rows|
    ensures forall i :: 0 <= i < |rows| ==> d[i] == Delta(rows[i])
  {
    if rows == [] then [] else [Delta(rows[0])] + Deltas(rows[1..])
  }

  // ------------------------------------------------ nearest-rank quantile

  predicate Sorted(s: seq<real>)
  {
    forall i, j :: 0 <= i < j < |s| ==> s[i] <= s[j]
  }

  /** A value no greater than the head of an ascending sequence can go in
      front of it. */
  lemma SortedCons(a: real, t: seq<real>)
    requires Sorted(t) && (t != [] ==> a <= t[0])
    ensures Sorted([a] + t)
  {
    var r := [a] + t;
    forall i, j | 0 <= i < j < |r|
      ensures r[i] <= r[j]
    {
      assert r[j] == t[j - 1];
      if i == 0 {
        assert t[0] <= t[j - 1];
      } else {
        assert r[i] == t[i - 1];
      }
    }
  }

  lemma SortedTail(s: seq<real>)
    requires Sorted(s) && s != []
    ensures Sorted(s[1..])
  {
    var t := s[1..];
    forall i, j | 0 <= i < j < |t|
      ensures t[i] <= t[j]
    {
      assert t[i] == s[i + 1] && t[j] == s[j + 1];
    }
  }

  function Insert(x: real, s: seq<real>): (r: seq<real>)
    requires Sorted(s)
    ensures Sorted(r)
    ensures |r| == |s| + 1 && multiset(r) == multiset(s) + multiset{x}
    ensures r[0] == x || (s != [] && r[0] == s[0])
  {
    if s == [] then [x]
    else if x <= s[0] then
      SortedCons(x, s);
      [x] + s
    else
      SortedTail(s);
      var rest := Insert(x, s[1..]);
      InsertBehindHead(x, s, rest);
      [s[0]] + rest
  }

  /** The recursive case of `Insert`: `x` goes behind a smaller head. */
  lemma InsertBehindHead(x: real, s: seq<real>, rest: seq<real>)
    requires Sorted(s) && s != [] && s[0] < x
    requires Sorted(rest) && |rest| == |s| && multiset(rest) == multiset(s[1..]) + multiset{x}
    requires rest[0] == x || (|s| > 1 && rest[0] == s[1])
    ensures Sorted([s[0]] + rest)
    ensures multiset([s[0]] + rest) == multiset(s) + multiset{x}
  {
    assert s == [s[0]] + s[1..];
    assert |s| == 1 || s[0] <= s[1];
    SortedCons(s[0], rest);
  }

  /** The values in ascending order. */
  function Sort(s: seq<real>): (r: seq<real>)
    ensures Sorted(r)
    ensures |r| == |s| && multiset(r) == multiset(s)
  {
    if s == [] then []
    else
      assert s == [s[0]] + s[1..];
      Insert(s[0], Sort(s[1..]))
  }

  /** numpy's 'nearest' position for quantile `q` of `n` values: `q * (n - 1)`
      rounded half to even. */
  function NearestRank(n: nat, q: real): (k: nat)
    requires n > 0 && 0.0 <= q <= 1.0
    ensures k < n
  {
    assert 0.0 <= q * (n - 1) as real <= (n - 1) as real;
    RoundWithin(q * (n - 1) as real, n - 1);
    RoundHalfEven(q * (n - 1) as real)
  }

  /** `Series.quantile(q, interpolation='nearest')`. An empty series has no
      quantile (pandas returns NaN, and every comparison with NaN is false). */
  function Quantile(values: seq<real>, q: real): (r: Option<real>)
    requires 0.0 <= q <= 1.0
    ensures r.None? <==> values == []
    ensures r.Some? ==> r.value in values
  {
    if values == [] then None
    else
      var sorted := Sort(values);
      assert sorted[NearestRank(|values|, q)] in multiset(values);
      Some(sorted[NearestRank(|values|, q)])
  }

  // ---------------------------------------------------------- counting

  /** How many of the values lie strictly below `v`. */
  function CountBelow(s: seq<real>, v: real): (c: nat)
    ensures c <= |s|
  {
    if s == [] then 0 else (if s[0] < v then 1 else 0) + CountBelow(s[1..], v)
  }

  /** How many of the values lie strictly above `v`. */
  function CountAbove(s: seq<real>, v: real): (c: nat)
    ensures c <= |s|
  {
    if s == [] then 0 else (if s[0] > v then 1 else 0) + CountAbove(s[1..], v)
  }

  lemma {:induction false} InsertCounts(x: real, s: seq<real>, v: real)
    requires Sorted(s)
    ensures CountBelow(Insert(x, s), v) == CountBelow(s, v) + (if x < v then 1 else 0)
    ensures CountAbove(Insert(x, s), v) == CountAbove(s, v) + (if x > v then 1 else 0)
  {
    if s == [] {
      CountCons(x, [], v);
    } else if x > s[0] {
      SortedTail(s);
      var rest := Insert(x, s[1..]);
      assert Insert(x, s) == [s[0]] + rest;
      CountCons(s[0], rest, v);
      InsertCounts(x, s[1..], v);
      CountCons(s[0], s[1..], v);
      assert s == [s[0]] + s[1..];
    } else {
      CountCons(x, s, v);
    }
  }

  lemma CountCons(a: real, t: seq<real>, v: real)
    ensures CountBelow([a] + t, v) == (if a < v then 1 else 0) + CountBelow(t, v)
    ensures CountAbove([a] + t, v) == (if a > v then 1 else 0) + CountAbove(t, v)
  {
    assert ([a] + t)[1..] == t;
  }

  /** Sorting moves values but counts them the same. */
  lemma {:induction false} SortCounts(s: seq<real>, v: real)
    ensures CountBelow(Sort(s), v) == CountBelow(s, v)
    ensures CountAbove(Sort(s), v) == CountAbove(s, v)
  {
    if s != [] {
      SortCounts(s[1..], v);
      InsertCounts(s[0], Sort(s[1..]), v);
    }
  }

  /** In an ascending sequence, no more than `k` values lie below the value at
      position `k`, and no more than `|s| - 1 - k` above it. */
  lemma {:induction false} SortedRankCounts(s: seq<real>, k: nat)
    requires Sorted(s) && k < |s|
    ensures CountBelow(s, s[k]) <= k
    ensures CountAbove(s, s[k]) <= |s| - 1 - k
  {
    if k > 0 {
      SortedRankCounts(s[1..], k - 1);
      assert s[1..][k - 1] == s[k];
    } else {
      NoneBelowFirst(s);
    }
  }

  lemma {:induction false} NoneBelowFirst(s: seq<real>)
    requires Sorted(s) && |s| > 0
    ensures CountBelow(s, s[0]) == 0
  {
    NoneBelow(s, s[0]);
  }

  lemma {:induction false} NoneBelow(s: seq<real>, v: real)
    requires forall i :: 0 <= i < |s| ==> v <= s[i]
    ensures CountBelow(s, v) == 0
  {
    if s != [] {
      NoneBelow(s[1..], v);
    }
  }

  /** A value never counts itself: when `v` is one of the values, fewer than all
      of them lie below it, and fewer than all above it. */
  lemma {:induction false} CountExcludesValue(s: seq<real>, v: real)
    requires v in s
    ensures CountBelow(s, v) < |s| && CountAbove(s, v) < |s|
  {
    if s[0] != v {
      CountExcludesValue(s[1..], v);
    }
  }

  /** The order-statistic meaning of the quantile: at most `NearestRank(n, q)`
      of the values lie strictly below it, and at most `n - 1 - NearestRank(n, q)`
      strictly above it. */
  lemma QuantileRank(values: seq<real>, q: real)
    requires 0.0 <= q <= 1.0 && values != []
    ensures CountBelow(values, Quantile(values, q).value) <= NearestRank(|values|, q)
    ensures CountAbove(values, Quantile(values, q).value) <= |values| - 1 - NearestRank(|values|, q)
  {
    var v := Quantile(values, q).value;
    SortCounts(values, v);
    SortedRankCounts(Sort(values), NearestRank(|values|, q));
  }

  // ----------------------------------------------------------- filtering

  /** `rows[delta < top]`; with no quantile (NaN) nothing passes. */
  function KeepBelow<A>(rows: seq<Sale<A>>, top: Option<real>): (r: seq<Sale<A>>)
    ensures IsSubsequence(r, rows)
    ensures forall i :: 0 <= i < |r| ==> top.Some? && Delta(r[i]) < top.value
    ensures forall i :: 0 <= i < |rows| && top.Some? && Delta(rows[i]) < top.value ==> rows[i] in r
    ensures top.Some? ==> |r| == CountBelow(Deltas(rows), top.value)
  {
    if rows == [] then []
    else
      var rest := KeepBelow(rows[1..], top);
      assert rows == [rows[0]] + rows[1..];
      assert Deltas(rows)[1..] == Deltas(rows[1..]);
      if top.Some? && Delta(rows[0]) < top.value then
        ConsSubsequence(rows[0], rest, rows[1..]);
        [rows[0]] + rest
      else
        SkipSubsequence(rows[0], rest, rows[1..]);
        rest
  }

  /** `rows[delta > bot]`; with no quantile (NaN) nothing passes. */
  function KeepAbove<A>(rows: seq<Sale<A>>, bot: Option<real>): (r: seq<Sale<A>>)
    ensures IsSubsequence(r, rows)
    ensures forall i :: 0 <= i < |r| ==> bot.Some? && Delta(r[i]) > bot.value
    ensures forall i :: 0 <= i < |rows| && bot.Some? && Delta(rows[i]) > bot.value ==> rows[i] in r
    ensures bot.Some? ==> |r| == CountAbove(Deltas(rows), bot.value)
  {
    if rows == [] then []
    else
      var rest := KeepAbove(rows[1..], bot);
      assert rows == [rows[0]] + rows[1..];
      assert Deltas(rows)[1..] == Deltas(rows[1..]);
      if bot.Some? && Delta(rows[0]) > bot.value then
        ConsSubsequence(rows[0], rest, rows[1..]);
        [rows[0]] + rest
      else
        SkipSubsequence(rows[0], rest, rows[1..]);
        rest
  }

  // ---------------------------------------------------------------- trim

  datatype TrimError = ThresholdOutOfRange

  /** The upper cut: the quantile at `1 - t` of all deltas. There is none only
      for an empty table; otherwise it is one of the deltas. */
  function TopCut<A>(rows: seq<Sale<A>>, t: real): (cut: Option<real>)
    requires 0.0 <= t <= 1.0
    ensures cut.None? <==> rows == []
    ensures cut.Some? ==> cut.value in Deltas(rows)
  {
    Quantile(Deltas(rows), 1.0 - t)
  }

  /** The rows left after the upper cut: in table order, exactly the rows
      whose delta is strictly below the cut. */
  function BelowTop<A>(rows: seq<Sale<A>>, t: real): (r: seq<Sale<A>>)
    requires 0.0 <= t <= 1.0
    ensures IsSubsequence(r, rows)
    ensures forall i :: 0 <= i < |r| ==> TopCut(rows, t).Some? && Delta(r[i]) < TopCut(rows, t).value
    ensures forall i :: 0 <= i < |rows| && TopCut(rows, t).Some? && Delta(rows[i]) < TopCut(rows, t).value ==>
      rows[i] in r
  {
    KeepBelow(rows, TopCut(rows, t))
  }

  /** The lower cut: the quantile at `t` of the deltas that survived the upper
      cut. There is none only when no row survived; otherwise it is one of the
      surviving deltas, so it lies strictly below the upper cut. */
  function BottomCut<A>(rows: seq<Sale<A>>, t: real): (cut: Option<real>)
    requires 0.0 <= t <= 1.0
    ensures cut.None? <==> BelowTop(rows, t) == []
    ensures cut.Some? ==> cut.value in Deltas(BelowTop(rows, t))
    ensures cut.Some? ==> TopCut(rows, t).Some? && cut.value < TopCut(rows, t).value
  {
    var cut := Quantile(Deltas(BelowTop(rows, t)), t);
    if cut.Some? then
      SurvivorBelowTop(rows, t, cut.value);
      cut
    else cut
  }

  /** A delta of a row that survived the upper cut lies below that cut. */
  lemma SurvivorBelowTop<A>(rows: seq<Sale<A>>, t: real, v: real)
    requires 0.0 <= t <= 1.0 && v in Deltas(BelowTop(rows, t))
    ensures TopCut(rows, t).Some? && v < TopCut(rows, t).value
  {
    var below := BelowTop(rows, t);
    var i :| 0 <= i < |below| && Deltas(below)[i] == v;
    assert Delta(below[i]) == v;
  }

  /** The whole trim. pandas refuses a quantile outside [0, 1]. */
  function TrimOutliers<A>(rows: seq<Sale<A>>, t: real): (r: Result<seq<Sale<A>>, TrimError>)
    ensures r.Failure? <==> !(0.0 <= t <= 1.0)
  {
    if !(0.0 <= t <= 1.0) then Failure(ThresholdOutOfRange)
    else Success(KeepAbove(BelowTop(rows, t), BottomCut(rows, t)))
  }

  /** The trim keeps an order-preserving subsequence of the rows and never adds
      one. */
  lemma TrimIsSubsequence<A>(rows: seq<Sale<A>>, t: real)
    requires 0.0 <= t <= 1.0
    ensures var r := TrimOutliers(rows, t).value;
      IsSubsequence(r, rows) && multiset(r) <= multiset(rows) && |r| <= |rows|
  {
    var r := TrimOutliers(rows, t).value;
    SubsequenceTrans(r, BelowTop(rows, t), rows);
    SubsequenceMultiset(r, rows);
  }

  /** A row that passed the upper cut lies below it. */
  lemma BelowCut<A>(rows: seq<Sale<A>>, top: Option<real>, x: Sale<A>)
    requires x in KeepBelow(rows, top)
    ensures top.Some? && Delta(x) < top.value
  {
    var k := KeepBelow(rows, top);
    var j :| 0 <= j < |k| && k[j] == x;
  }

  /** A row that is among the candidates and lies above the lower cut passes it. */
  lemma AboveCutKept<A>(rows: seq<Sale<A>>, bot: Option<real>, x: Sale<A>)
    requires x in rows && bot.Some? && Delta(x) > bot.value
    ensures x in KeepAbove(rows, bot)
  {
    var j :| 0 <= j < |rows| && rows[j] == x;
  }

  /** Every kept row lies strictly between the two cuts, so a row whose delta
      equals either cut is removed. */
  lemma TrimKeepsOnlyBand<A>(rows: seq<Sale<A>>, t: real)
    requires 0.0 <= t <= 1.0
    ensures var r := TrimOutliers(rows, t).value;
      var top, bot := TopCut(rows, t), BottomCut(rows, t);
      forall i :: 0 <= i < |r| ==>
        top.Some? && bot.Some? && bot.value < Delta(r[i]) < top.value
  {
    var top, bot := TopCut(rows, t), BottomCut(rows, t);
    var kept := KeepBelow(rows, top);
    var r := KeepAbove(kept, bot);
    forall i | 0 <= i < |r|
      ensures top.Some? && bot.Some? && bot.value < Delta(r[i]) < top.value
    {
      SubsequenceMember(r, kept, r[i]);
      BelowCut(rows, top, r[i]);
    }
  }

  /** Every row strictly between the two cuts is kept. */
  lemma TrimKeepsWholeBand<A>(rows: seq<Sale<A>>, t: real)
    requires 0.0 <= t <= 1.0
    ensures var r := TrimOutliers(rows, t).value;
      var top, bot := TopCut(rows, t), BottomCut(rows, t);
      forall i :: (0 <= i < |rows| && top.Some? && bot.Some? &&
                   bot.value < Delta(rows[i]) < top.value) ==> rows[i] in r
  {
    var top, bot := TopCut(rows, t), BottomCut(rows, t);
    var kept := KeepBelow(rows, top);
    forall i | 0 <= i < |rows| && top.Some? && bot.Some? && bot.value < Delta(rows[i]) < top.value
      ensures rows[i] in KeepAbove(kept, bot)
    {
      AboveCutKept(kept, bot, rows[i]);
    }
  }

  /** Each cut is the delta of a row it is computed over, so a non-empty table
      always loses at least one row, and a trimmed table that is not empty has
      lost at least two. */
  lemma TrimRemovesTheCuts<A>(rows: seq<Sale<A>>, t: real)
    requires 0.0 <= t <= 1.0
    ensures var r := TrimOutliers(rows, t).value;
      var kept := BelowTop(rows, t);
      (rows != [] ==> |kept| < |rows|) &&
      |r| <= |kept| && (kept != [] ==> |r| < |kept|) &&
      (rows != [] ==> |r| < |rows|) && (r != [] ==> |r| + 2 <= |rows|)
  {
    var top, bot := TopCut(rows, t), BottomCut(rows, t);
    var kept := BelowTop(rows, t);
    var r := KeepAbove(kept, bot);
    SubsequenceMultiset(r, kept);
    SubsequenceMultiset(kept, rows);
    if rows != [] {
      CountExcludesValue(Deltas(rows), top.value);
    }
    if kept != [] {
      CountExcludesValue(Deltas(kept), bot.value);
    }
  }

  /** Keeping the rows below the quantile at `q` keeps at most its position:
      the upper cut keeps at most `NearestRank(|rows|, 1 - t)` rows. */
  lemma KeepBelowQuantile<A>(rows: seq<Sale<A>>, q: real)
    requires 0.0 <= q <= 1.0 && rows != []
    ensures |KeepBelow(rows, Quantile(Deltas(rows), q))| <= NearestRank(|rows|, q)
  {
    var d := Deltas(rows);
    var top := Quantile(d, q);
    QuantileRank(d, q);
    assert |KeepBelow(rows, top)| == CountBelow(d, top.value);
  }

  /** For 100 sales at 10% the upper cut sits at position round(0.9 * 99) = 89,
      so at most 89 rows lie below it. */
  lemma TopCutAtTenPercent<A>(rows: seq<Sale<A>>)
    requires |rows| == 100
    ensures |BelowTop(rows, 0.1)| <= 89
  {
    assert 0.9 * 99.0 == 89.1;
    RoundHalfEvenUnique(89.1, 89);
    assert NearestRank(100, 0.9) == 89;
    KeepBelowQuantile(rows, 0.9);
  }

  /** A table of 100 closed sales trimmed at 10% keeps at most 88 rows: the
      upper cut keeps at most 89 and the lower cut removes at least one more. */
  lemma HundredRowsAtTenPercent<A>(rows: seq<Sale<A>>)
    requires |rows| == 100
    ensures |TrimOutliers(rows, 0.1).value| <= 88
  {
    TopCutAtTenPercent(rows);
    TrimRemovesTheCuts(rows, 0.1);
  }
}
