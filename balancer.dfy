/** The distribution balancer `balance_clean_data`: counting targets per bucket,
    taking the largest count as the cap, and selecting each bucket's first rows.
    The bucket keys are the rounded `np.arange` values, over exact reals; they
    are proved to be strictly ascending, one step apart. The selection is
    modelled twice: as the source writes it, where only the first and the last
    bucket reach the result, and as the accumulation it evidently intends. */
module Balancer {
  import opened Common
  import opened Rounding
  import Outliers

  /** A row of the cleaned table: its numeric cells, with `Targets` the last. */
  type Row = seq<real>

  /** Every row has a `Targets` cell. */
  predicate HasTargets(rows: seq<Row>)
  {
    forall i :: 0 <= i < |rows| ==> |rows[i]| > 0
  }

  function Target(r: Row): real
    requires |r| > 0
  {
    r[|r| - 1]
  }

  /** The `Targets` column. */
  function TargetColumn(rows: seq<Row>): (ts: seq<real>)
    requires HasTargets(rows)
    ensures |ts| == |rows|
    ensures forall i :: 0 <= i < |rows| ==> ts[i] == Target(rows[i])
  {
    if rows == [] then [] else [Target(rows[0])] + TargetColumn(rows[1..])
  }

  ghost predicate StrictlyAscending(keys: seq<real>)
  {
    forall i, j :: 0 <= i < j < |keys| ==> keys[i] < keys[j]
  }

  // ------------------------------------------------------------ the keys

  /** `1 / num_buckets` with five buckets. */
  const StepSize: real := 0.2

  /** `round(x, 1)`: to one decimal, ties to the even neighbour. */
  function RoundOneDecimal(x: real): real
  {
    RoundHalfEven(x * 10.0) as real / 10.0
  }

  function Ceiling(x: real): (c: int)
    ensures c as real >= x && (c - 1) as real < x
  {
    -((-x).Floor)
  }

  /** The length of `np.arange(start, stop, step)`: the least n with
      `start + n * step >= stop`. */
  function ArangeLength(start: real, stop: real, step: real): (n: nat)
    requires step > 0.0
    ensures start + n as real * step >= stop
    ensures n > 0 ==> start + (n - 1) as real * step < stop
  {
    if stop <= start then 0
    else
      var c := Ceiling((stop - start) / step);
      var q := (stop - start) / step;
      assert q * step == stop - start;
      ProductNonNegative(c as real - q, step);
      ProductPositive(q - (c - 1) as real, step);
      c
  }

  /** The bucket keys `round(b, 1)` for `b` in
      `np.arange(lowest + step, highest + step, step)`. */
  function BucketKeys(lowest: real, highest: real): (keys: seq<real>)
    ensures |keys| == ArangeLength(lowest + StepSize, highest + StepSize, StepSize)
    ensures forall i :: 0 <= i < |keys| ==>
      keys[i] == RoundOneDecimal(lowest + StepSize + i as real * StepSize)
  {
    var n := ArangeLength(lowest + StepSize, highest + StepSize, StepSize);
    seq(n, i requires 0 <= i < n => RoundOneDecimal(lowest + StepSize + i as real * StepSize))
  }

  /** Shifting by an even integer commutes with rounding half to even. */
  lemma RoundShiftEven(y: real, m: int)
    ensures RoundHalfEven(y + (2 * m) as real) == RoundHalfEven(y) + 2 * m
  {
    var r := RoundHalfEven(y);
    assert (r + 2 * m) % 2 == r % 2;
    RoundHalfEvenUnique(y + (2 * m) as real, r + 2 * m);
  }

  /** The rounded keys are exactly one step apart, so they are strictly
      ascending and no two of them collide as dictionary keys. */
  lemma BucketKeysAreSteps(lowest: real, highest: real)
    ensures var keys := BucketKeys(lowest, highest);
      (forall i :: 0 <= i < |keys| ==> keys[i] == keys[0] + i as real * StepSize) &&
      StrictlyAscending(keys)
  {
    var keys := BucketKeys(lowest, highest);
    var y := (lowest + StepSize) * 10.0;
    forall i | 0 <= i < |keys|
      ensures keys[i] == keys[0] + i as real * StepSize
    {
      assert (lowest + StepSize + i as real * StepSize) * 10.0 == y + (2 * i) as real;
      RoundShiftEven(y, i);
      assert keys[0] == RoundHalfEven(y) as real / 10.0;
    }
  }

  /** There is no bucket exactly when all targets are equal. */
  lemma NoBucketsIffConstant(lowest: real, highest: real)
    ensures |BucketKeys(lowest, highest)| == 0 <==> highest <= lowest
  {
  }

  /** There is exactly one bucket when the targets span more than nothing and
      at most one step. */
  lemma OneBucketIffNarrow(lowest: real, highest: real)
    ensures |BucketKeys(lowest, highest)| == 1 <==> lowest < highest <= lowest + StepSize
  {
    var n := |BucketKeys(lowest, highest)|;
    if n >= 2 {
      assert lowest + StepSize + (n - 1) as real * StepSize < highest + StepSize;
      assert (n - 1) as real * StepSize >= StepSize;
    }
  }

  /** Targets scaled into [0, 1] give the five keys 0.2, 0.4, 0.6, 0.8, 1.0. */
  lemma UnitRangeKeys()
    ensures BucketKeys(0.0, 1.0) == [0.2, 0.4, 0.6, 0.8, 1.0]
  {
    var keys := BucketKeys(0.0, 1.0);
    assert ArangeLength(0.2, 1.2, 0.2) == 5;
    RoundInteger(2);
    RoundInteger(4);
    RoundInteger(6);
    RoundInteger(8);
    RoundInteger(10);
    assert keys[0] == RoundOneDecimal(0.2) && 0.2 * 10.0 == 2 as real;
    assert keys[1] == RoundOneDecimal(0.4) && 0.4 * 10.0 == 4 as real;
    assert keys[2] == RoundOneDecimal(0.6) && 0.6 * 10.0 == 6 as real;
    assert keys[3] == RoundOneDecimal(0.8) && 0.8 * 10.0 == 8 as real;
    assert keys[4] == RoundOneDecimal(1.0) && 1.0 * 10.0 == 10 as real;
  }

  // -------------------------------------------------------------- counting

  /** How many targets lie in the half-open interval (lo, hi]. */
  function CountIn(ts: seq<real>, lo: real, hi: real): (c: nat)
    ensures c <= |ts|
  {
    if ts == [] then 0
    else (if lo < ts[0] <= hi then 1 else 0) + CountIn(ts[1..], lo, hi)
  }

  /** The count is zero exactly when no target lies in the interval, and it is
      the number of targets exactly when every target does. */
  lemma {:induction false} CountInNoneOrAll(ts: seq<real>, lo: real, hi: real)
    ensures CountIn(ts, lo, hi) == 0 <==> forall k :: 0 <= k < |ts| ==> !(lo < ts[k] <= hi)
    ensures CountIn(ts, lo, hi) == |ts| <==> forall k :: 0 <= k < |ts| ==> lo < ts[k] <= hi
    decreases |ts|
  {
    if ts != [] {
      CountInNoneOrAll(ts[1..], lo, hi);
      assert forall k :: 0 < k < |ts| ==> ts[1..][k - 1] == ts[k];
    }
  }

  /** The lower end of bucket `i` when counting: the previous key, and for the
      first bucket the literal 0 that `previous_key` starts from. */
  function CountingFloor(keys: seq<real>, i: nat): real
    requires i < |keys|
  {
    if i == 0 then 0.0 else keys[i - 1]
  }

  /** The bucket counts the counting loop produces, one per key, each at most
      the number of targets. */
  function BucketCounts(ts: seq<real>, keys: seq<real>): (counts: seq<nat>)
    ensures |counts| == |keys|
    ensures forall i :: 0 <= i < |keys| ==> counts[i] <= |ts|
  {
    seq(|keys|, i requires 0 <= i < |keys| => CountIn(ts, CountingFloor(keys, i), keys[i]))
  }

  lemma {:induction false} CountInAppend(ts: seq<real>, t: real, lo: real, hi: real)
    ensures CountIn(ts + [t], lo, hi) == CountIn(ts, lo, hi) + (if lo < t <= hi then 1 else 0)
    decreases |ts|
  {
    if ts == [] {
      assert [] + [t] == [t];
    } else {
      assert (ts + [t])[1..] == ts[1..] + [t];
      CountInAppend(ts[1..], t, lo, hi);
    }
  }

  /** The nested counting loops: for each key in order, every target in
      (previous key, key] is counted, and the key becomes the previous key. */
  method CountBuckets(ts: seq<real>, keys: seq<real>) returns (counts: seq<nat>)
    ensures counts == BucketCounts(ts, keys)
  {
    counts := [];
    var previousKey := 0.0;
    for k := 0 to |keys|
      invariant |counts| == k
      invariant forall i :: 0 <= i < k ==> counts[i] == CountIn(ts, CountingFloor(keys, i), keys[i])
      invariant previousKey == if k == 0 then 0.0 else keys[k - 1]
    {
      var key := keys[k];
      var count := 0;
      for j := 0 to |ts|
        invariant count == CountIn(ts[..j], previousKey, key)
      {
        CountInAppend(ts[..j], ts[j], previousKey, key);
        assert ts[..j + 1] == ts[..j] + [ts[j]];
        if previousKey < ts[j] <= key {
          count := count + 1;
        }
      }
      assert ts[..|ts|] == ts;
      counts := counts + [count];
      previousKey := key;
    }
  }

  lemma {:induction false} CountInSplit(ts: seq<real>, a: real, b: real, c: real)
    requires a <= b <= c
    ensures CountIn(ts, a, b) + CountIn(ts, b, c) == CountIn(ts, a, c)
  {
    if ts != [] {
      CountInSplit(ts[1..], a, b, c);
    }
  }

  lemma {:induction false} CountInEmptyInterval(ts: seq<real>, a: real, b: real)
    requires b <= a
    ensures CountIn(ts, a, b) == 0
  {
    if ts != [] {
      CountInEmptyInterval(ts[1..], a, b);
    }
  }

  lemma {:induction false} CountInConcat(a: seq<real>, b: seq<real>, lo: real, hi: real)
    ensures CountIn(a + b, lo, hi) == CountIn(a, lo, hi) + CountIn(b, lo, hi)
    decreases |a|
  {
    if a == [] {
      assert [] + b == b;
    } else {
      assert (a + b)[1..] == a[1..] + b;
      CountInConcat(a[1..], b, lo, hi);
    }
  }

  /** A count depends only on which targets there are, not on their order. */
  lemma {:induction false} CountInPermutation(a: seq<real>, b: seq<real>, lo: real, hi: real)
    requires multiset(a) == multiset(b)
    ensures CountIn(a, lo, hi) == CountIn(b, lo, hi)
    decreases |a|
  {
    if a != [] {
      assert a[0] in multiset(b);
      var k :| 0 <= k < |b| && b[k] == a[0];
      var rest := b[..k] + b[k + 1..];
      RemovedMultiset(b, k);
      FirstRemovedMultiset(a);
      CountInPermutation(a[1..], rest, lo, hi);
      CountInRemoved(b, k, lo, hi);
    }
  }

  lemma FirstRemovedMultiset(a: seq<real>)
    requires a != []
    ensures multiset(a[1..]) == multiset(a) - multiset{a[0]}
  {
    assert a == [a[0]] + a[1..];
  }

  lemma CountInRemoved(b: seq<real>, k: nat, lo: real, hi: real)
    requires k < |b|
    ensures CountIn(b, lo, hi) ==
      CountIn(b[..k] + b[k + 1..], lo, hi) + (if lo < b[k] <= hi then 1 else 0)
  {
    assert b == b[..k] + [b[k]] + b[k + 1..];
    CountInConcat(b[..k], b[k + 1..], lo, hi);
    CountInConcat(b[..k] + [b[k]], b[k + 1..], lo, hi);
    CountInConcat(b[..k], [b[k]], lo, hi);
    assert CountIn([b[k]], lo, hi) == (if lo < b[k] <= hi then 1 else 0);
  }

  /** Counting over the sorted targets, as the source does, gives the counts of
      the targets in table order. */
  lemma SortedCountsAgree(ts: seq<real>, keys: seq<real>)
    ensures BucketCounts(Outliers.Sort(ts), keys) == BucketCounts(ts, keys)
  {
    forall i | 0 <= i < |keys|
      ensures BucketCounts(Outliers.Sort(ts), keys)[i] == BucketCounts(ts, keys)[i]
    {
      CountInPermutation(Outliers.Sort(ts), ts, CountingFloor(keys, i), keys[i]);
    }
  }

  function Sum(s: seq<nat>): nat
  {
    if s == [] then 0 else Sum(s[..|s| - 1]) + s[|s| - 1]
  }

  /** With ascending keys the counted intervals do not overlap, so the counts add
      up to the count of the first interval plus that of (first key, last key]. */
  lemma {:induction false} CountsTelescope(ts: seq<real>, keys: seq<real>)
    requires StrictlyAscending(keys) && |keys| > 0
    ensures Sum(BucketCounts(ts, keys)) ==
      CountIn(ts, 0.0, keys[0]) + CountIn(ts, keys[0], keys[|keys| - 1])
    decreases |keys|
  {
    var n := |keys|;
    var counts := BucketCounts(ts, keys);
    if n == 1 {
      CountInEmptyInterval(ts, keys[0], keys[0]);
      assert counts[..0] == [];
    } else {
      var init := keys[..n - 1];
      assert counts[..n - 1] == BucketCounts(ts, init);
      CountsTelescope(ts, init);
      CountInSplit(ts, keys[0], keys[n - 2], keys[n - 1]);
    }
  }

  /** Each target is counted at most once: the counts add up to at most the
      number of targets. */
  lemma CountsAtMostTargets(ts: seq<real>, keys: seq<real>)
    requires StrictlyAscending(keys)
    ensures Sum(BucketCounts(ts, keys)) <= |ts|
  {
    if |keys| > 0 {
      CountsTelescope(ts, keys);
      if keys[0] >= 0.0 {
        CountInSplit(ts, 0.0, keys[0], keys[|keys| - 1]);
      } else {
        CountInEmptyInterval(ts, 0.0, keys[0]);
      }
    } else {
      assert BucketCounts(ts, keys) == [];
    }
  }

  /** `int(np.max(all_buckets))`: the cap. */
  function MaxCount(counts: seq<nat>): (m: nat)
    requires |counts| > 0
    ensures m in counts
    ensures forall i :: 0 <= i < |counts| ==> counts[i] <= m
  {
    if |counts| == 1 then counts[0]
    else
      var rest := MaxCount(counts[1..]);
      if counts[0] >= rest then counts[0] else rest
  }

  // ------------------------------------------------------------- selection

  /** `lo < target <= hi`, where a missing `lo` puts no lower bound. */
  predicate InRange(lo: Option<real>, hi: real, t: real)
  {
    (lo.None? || lo.value < t) && t <= hi
  }

  /** The boolean mask of the selection: the rows whose target is in range, in
      table order. */
  function RowsInRange(rows: seq<Row>, lo: Option<real>, hi: real): (r: seq<Row>)
    requires HasTargets(rows)
    ensures HasTargets(r)
    ensures forall j :: 0 <= j < |r| ==> InRange(lo, hi, Target(r[j]))
  {
    if rows == [] then []
    else if InRange(lo, hi, Target(rows[0])) then [rows[0]] + RowsInRange(rows[1..], lo, hi)
    else RowsInRange(rows[1..], lo, hi)
  }

  /** The mask keeps table order and every row in range, and it selects as
      many rows as the counting loop counts targets in that range. */
  lemma {:induction false} RowsInRangeSpec(rows: seq<Row>, lo: Option<real>, hi: real)
    requires HasTargets(rows)
    ensures var r := RowsInRange(rows, lo, hi);
      IsSubsequence(r, rows) &&
      (forall j :: 0 <= j < |rows| && InRange(lo, hi, Target(rows[j])) ==> rows[j] in r) &&
      (lo.Some? ==> |r| == CountIn(TargetColumn(rows), lo.value, hi))
    decreases |rows|
  {
    if rows != [] {
      var rest := RowsInRange(rows[1..], lo, hi);
      RowsInRangeSpec(rows[1..], lo, hi);
      assert rows == [rows[0]] + rows[1..];
      assert TargetColumn(rows)[1..] == TargetColumn(rows[1..]);
      assert forall j :: 1 <= j < |rows| ==> rows[j] == rows[1..][j - 1];
      if InRange(lo, hi, Target(rows[0])) {
        ConsSubsequence(rows[0], rest, rows[1..]);
      } else {
        SkipSubsequence(rows[0], rest, rows[1..]);
      }
    }
  }

  /** The selection interval of bucket `i`: (previous key, key], except that the
      first bucket takes every target up to its key, with no lower bound. */
  function SelectionFloor(keys: seq<real>, i: nat): Option<real>
    requires i < |keys|
  {
    if i == 0 then None else Some(keys[i - 1])
  }

  function RowsInBucket(rows: seq<Row>, keys: seq<real>, i: nat): seq<Row>
    requires HasTargets(rows) && i < |keys|
  {
    RowsInRange(rows, SelectionFloor(keys, i), keys[i])
  }

  /** `iloc[:n]`. */
  function Take<T>(s: seq<T>, n: nat): (r: seq<T>)
    ensures |r| == if n < |s| then n else |s|
    ensures r == s[..|r|]
  {
    if n < |s| then s[..n] else s
  }

  /** What bucket `i` contributes: its first `limit` rows. */
  function Contribution(rows: seq<Row>, keys: seq<real>, i: nat, limit: nat): (r: seq<Row>)
    requires HasTargets(rows) && i < |keys|
    ensures HasTargets(r)
    ensures |r| <= limit && |r| <= |RowsInBucket(rows, keys, i)|
    ensures r == RowsInBucket(rows, keys, i)[..|r|]
  {
    Take(RowsInBucket(rows, keys, i), limit)
  }

  /** A contribution only holds rows of its bucket, each at most as often as
      the bucket does. */
  lemma ContributionInBucket(rows: seq<Row>, keys: seq<real>, i: nat, limit: nat)
    requires HasTargets(rows) && i < |keys|
    ensures var r := Contribution(rows, keys, i, limit);
      (forall j :: 0 <= j < |r| ==> InRange(SelectionFloor(keys, i), keys[i], Target(r[j]))) &&
      multiset(r) <= multiset(RowsInBucket(rows, keys, i))
  {
    var bucket := RowsInBucket(rows, keys, i);
    var r := Contribution(rows, keys, i, limit);
    PrefixIsSubsequence(bucket, |r|);
    SubsequenceMultiset(r, bucket);
  }

  /** The first `limit` rows of every bucket but the first are all the rows of
      that bucket when `limit` is the largest count: the cap changes nothing
      there, and the balancer only ever truncates the first bucket, whose
      selection (unlike its count) also takes targets at or below 0. */
  lemma CapIsNoOpAboveFirstBucket(rows: seq<Row>, keys: seq<real>, i: nat)
    requires HasTargets(rows) && 0 < i < |keys|
    ensures Contribution(rows, keys, i, MaxCount(BucketCounts(TargetColumn(rows), keys))) ==
      RowsInBucket(rows, keys, i)
  {
    var counts := BucketCounts(TargetColumn(rows), keys);
    RowsInRangeSpec(rows, Some(keys[i - 1]), keys[i]);
    assert counts[i] == CountIn(TargetColumn(rows), keys[i - 1], keys[i]);
  }

  /** The table `balance_clean_data` leaves in `self.balanced_data`, as written:
      the local table is set to the first bucket's rows and never updated, and
      each later bucket replaces the field by that local table plus the bucket's
      rows. So the result is the first bucket plus the last; with one bucket the
      field keeps its previous value. With two or more buckets the result holds
      at most two caps' worth of rows, whatever the number of buckets. */
  function BalancedAsWritten(previous: seq<Row>, rows: seq<Row>, keys: seq<real>, limit: nat)
    : (r: seq<Row>)
    requires HasTargets(rows) && |keys| > 0
    ensures |keys| >= 2 ==> HasTargets(r) && |r| <= 2 * limit
  {
    if |keys| == 1 then previous
    else Contribution(rows, keys, 0, limit) + Contribution(rows, keys, |keys| - 1, limit)
  }

  /** The contributions of buckets 0 to m - 1, appended in key order. */
  function Accumulated(rows: seq<Row>, keys: seq<real>, limit: nat, m: nat): (r: seq<Row>)
    requires HasTargets(rows) && m <= |keys|
    ensures HasTargets(r)
  {
    if m == 0 then []
    else Accumulated(rows, keys, limit, m - 1) + Contribution(rows, keys, m - 1, limit)
  }

  /** The balanced table the loop evidently intends: every bucket's first
      `limit` rows, appended in key order: at most one cap's worth per bucket. */
  function BalancedIntended(rows: seq<Row>, keys: seq<real>, limit: nat): (r: seq<Row>)
    requires HasTargets(rows)
    ensures HasTargets(r) && |r| <= |keys| * limit
  {
    AccumulatedSize(rows, keys, limit, |keys|);
    Accumulated(rows, keys, limit, |keys|)
  }

  /** Each of the first m buckets contributes at most `limit` rows. */
  lemma {:induction false} AccumulatedSize(rows: seq<Row>, keys: seq<real>, limit: nat, m: nat)
    requires HasTargets(rows) && m <= |keys|
    ensures |Accumulated(rows, keys, limit, m)| <= m * limit
  {
    if m > 0 {
      AccumulatedSize(rows, keys, limit, m - 1);
      assert (m - 1) * limit + limit == m * limit;
    }
  }

  /** Two adjacent ranges together select exactly what their union selects. */
  lemma {:induction false} RangesJoin(rows: seq<Row>, lo: Option<real>, b: real, c: real)
    requires HasTargets(rows) && (lo.None? || lo.value <= b) && b <= c
    ensures multiset(RowsInRange(rows, lo, b)) + multiset(RowsInRange(rows, Some(b), c)) ==
      multiset(RowsInRange(rows, lo, c))
  {
    if rows != [] {
      RangesJoin(rows[1..], lo, b, c);
    }
  }

  /** The first m contributions hold no row more often than the rows whose
      target is at most the (m-1)-th key. */
  lemma {:induction false} AccumulatedWithinRange(rows: seq<Row>, keys: seq<real>, limit: nat, m: nat)
    requires HasTargets(rows) && StrictlyAscending(keys) && 0 < m <= |keys|
    ensures multiset(Accumulated(rows, keys, limit, m)) <= multiset(RowsInRange(rows, None, keys[m - 1]))
  {
    ContributionInBucket(rows, keys, m - 1, limit);
    if m == 1 {
      assert Accumulated(rows, keys, limit, 0) == [];
    } else {
      AccumulatedWithinRange(rows, keys, limit, m - 1);
      RangesJoin(rows, None, keys[m - 2], keys[m - 1]);
    }
  }

  /** Every row of the first m contributions lies in the selection interval
      of one of the first m buckets: the bucket `i` returned. */
  lemma {:induction false} AccumulatedRowInBucket(rows: seq<Row>, keys: seq<real>, limit: nat,
                                                   m: nat, j: nat) returns (i: nat)
    requires HasTargets(rows) && m <= |keys|
    requires j < |Accumulated(rows, keys, limit, m)|
    ensures i < m
    ensures InRange(SelectionFloor(keys, i), keys[i], Target(Accumulated(rows, keys, limit, m)[j]))
  {
    var before := Accumulated(rows, keys, limit, m - 1);
    var last := Contribution(rows, keys, m - 1, limit);
    assert Accumulated(rows, keys, limit, m) == before + last;
    if j < |before| {
      i := AccumulatedRowInBucket(rows, keys, limit, m - 1, j);
      assert Accumulated(rows, keys, limit, m)[j] == before[j];
    } else {
      i := m - 1;
      ContributionInBucket(rows, keys, m - 1, limit);
      assert Accumulated(rows, keys, limit, m)[j] == last[j - |before|];
    }
  }

  /** The intended table never duplicates or invents a row. */
  lemma IntendedWithinRows(rows: seq<Row>, keys: seq<real>, limit: nat)
    requires HasTargets(rows) && StrictlyAscending(keys) && |keys| > 0
    ensures multiset(BalancedIntended(rows, keys, limit)) <= multiset(rows)
  {
    AccumulatedWithinRange(rows, keys, limit, |keys|);
    RowsInRangeSpec(rows, None, keys[|keys| - 1]);
    SubsequenceMultiset(RowsInRange(rows, None, keys[|keys| - 1]), rows);
  }

  /** Every row of the intended table lies in some bucket, so its target is at
      most the last key. */
  lemma IntendedBelowLastKey(rows: seq<Row>, keys: seq<real>, limit: nat)
    requires HasTargets(rows) && StrictlyAscending(keys) && |keys| > 0
    ensures var b := BalancedIntended(rows, keys, limit);
      forall j :: 0 <= j < |b| ==> Target(b[j]) <= keys[|keys| - 1]
  {
    var b := BalancedIntended(rows, keys, limit);
    forall j | 0 <= j < |b| ensures Target(b[j]) <= keys[|keys| - 1] {
      var i := AccumulatedRowInBucket(rows, keys, limit, |keys|, j);
      assert keys[i] <= keys[|keys| - 1];
    }
  }

  /** With the largest count as the cap, the intended table holds every row
      whose target lies above the first key and at most the last key. */
  lemma IntendedKeepsUpperBuckets(rows: seq<Row>, keys: seq<real>, limit: nat)
    requires HasTargets(rows) && |keys| > 0
    requires limit == MaxCount(BucketCounts(TargetColumn(rows), keys))
    ensures forall j :: 0 <= j < |rows| && keys[0] < Target(rows[j]) <= keys[|keys| - 1] ==>
      rows[j] in BalancedIntended(rows, keys, limit)
  {
    forall j | 0 <= j < |rows| && keys[0] < Target(rows[j]) <= keys[|keys| - 1]
      ensures rows[j] in BalancedIntended(rows, keys, limit)
    {
      UpperRowInIntended(rows, keys, limit, rows[j]);
    }
  }

  /** One row above the first key and at most the last reaches the intended
      table through the bucket that holds it. */
  lemma UpperRowInIntended(rows: seq<Row>, keys: seq<real>, limit: nat, x: Row)
    requires HasTargets(rows) && |keys| > 0
    requires limit == MaxCount(BucketCounts(TargetColumn(rows), keys))
    requires x in rows && |x| > 0 && keys[0] < Target(x) <= keys[|keys| - 1]
    ensures x in BalancedIntended(rows, keys, limit)
  {
    var i := BucketOf(keys, Target(x));
    RowInUpperBucketKept(rows, keys, limit, i, x);
    ContributionInAccumulated(rows, keys, limit, |keys|, i, x);
  }

  lemma RowInUpperBucketKept(rows: seq<Row>, keys: seq<real>, limit: nat, i: nat, x: Row)
    requires HasTargets(rows) && 0 < i < |keys|
    requires limit == MaxCount(BucketCounts(TargetColumn(rows), keys))
    requires x in rows && |x| > 0 && keys[i - 1] < Target(x) <= keys[i]
    ensures x in Contribution(rows, keys, i, limit)
  {
    CapIsNoOpAboveFirstBucket(rows, keys, i);
    RowsInRangeSpec(rows, Some(keys[i - 1]), keys[i]);
  }

  /** The bucket past the first whose selection interval holds `t`. */
  function BucketOf(keys: seq<real>, t: real): (i: nat)
    requires |keys| > 0 && keys[0] < t <= keys[|keys| - 1]
    ensures 0 < i < |keys| && keys[i - 1] < t <= keys[i]
    decreases |keys|
  {
    if keys[|keys| - 2] < t then |keys| - 1
    else BucketOf(keys[..|keys| - 1], t)
  }

  lemma {:induction false} ContributionInAccumulated(rows: seq<Row>, keys: seq<real>, limit: nat,
                                                     m: nat, i: nat, x: Row)
    requires HasTargets(rows) && i < m <= |keys|
    requires x in Contribution(rows, keys, i, limit)
    ensures x in Accumulated(rows, keys, limit, m)
  {
    var before := Accumulated(rows, keys, limit, m - 1);
    var last := Contribution(rows, keys, m - 1, limit);
    assert Accumulated(rows, keys, limit, m) == before + last;
    if i < m - 1 {
      ContributionInAccumulated(rows, keys, limit, m - 1, i, x);
      assert x in before;
    } else {
      assert x in last;
    }
  }

  /** The table as written holds no row more often than the intended table
      does: its two slices are the first and the last contribution. */
  lemma AsWrittenWithinIntended(rows: seq<Row>, keys: seq<real>, limit: nat)
    requires HasTargets(rows) && |keys| >= 2
    ensures multiset(BalancedAsWritten([], rows, keys, limit)) <= multiset(BalancedIntended(rows, keys, limit))
  {
    AsWrittenUnfolds(rows, keys, limit);
    IntendedUnfolds(rows, keys, limit);
    OuterWithinAccumulated(rows, keys, limit);
  }

  /** The first and the last contribution are within all contributions. */
  lemma {:induction false} OuterWithinAccumulated(rows: seq<Row>, keys: seq<real>, limit: nat)
    requires HasTargets(rows) && |keys| >= 2
    ensures multiset(Contribution(rows, keys, 0, limit) + Contribution(rows, keys, |keys| - 1, limit)) <=
      multiset(Accumulated(rows, keys, limit, |keys| - 1) + Contribution(rows, keys, |keys| - 1, limit))
  {
    var n := |keys|;
    FirstInAccumulated(rows, keys, limit, n - 1);
    AppendWithin(Contribution(rows, keys, 0, limit), Accumulated(rows, keys, limit, n - 1),
                 Contribution(rows, keys, n - 1, limit));
  }

  lemma AsWrittenUnfolds(rows: seq<Row>, keys: seq<real>, limit: nat)
    requires HasTargets(rows) && |keys| >= 2
    ensures BalancedAsWritten([], rows, keys, limit) ==
      Contribution(rows, keys, 0, limit) + Contribution(rows, keys, |keys| - 1, limit)
  {
  }

  lemma IntendedUnfolds(rows: seq<Row>, keys: seq<real>, limit: nat)
    requires HasTargets(rows) && |keys| > 0
    ensures BalancedIntended(rows, keys, limit) ==
      Accumulated(rows, keys, limit, |keys| - 1) + Contribution(rows, keys, |keys| - 1, limit)
  {
  }

  lemma {:induction false} FirstInAccumulated(rows: seq<Row>, keys: seq<real>, limit: nat, m: nat)
    requires HasTargets(rows) && 0 < m <= |keys|
    ensures multiset(Contribution(rows, keys, 0, limit)) <= multiset(Accumulated(rows, keys, limit, m))
  {
    if m > 1 {
      FirstInAccumulated(rows, keys, limit, m - 1);
    } else {
      assert Accumulated(rows, keys, limit, 1) == [] + Contribution(rows, keys, 0, limit);
    }
  }

  /** The defect of the code as written: with three or more buckets, no row of
      a middle bucket reaches the balanced table. */
  lemma AsWrittenDropsMiddleBuckets(previous: seq<Row>, rows: seq<Row>, keys: seq<real>,
                                    limit: nat, i: nat, x: Row)
    requires HasTargets(rows) && StrictlyAscending(keys)
    requires 0 < i < |keys| - 1
    requires |x| > 0 && InRange(SelectionFloor(keys, i), keys[i], Target(x))
    ensures x !in BalancedAsWritten(previous, rows, keys, limit)
  {
    var first := Contribution(rows, keys, 0, limit);
    var last := Contribution(rows, keys, |keys| - 1, limit);
    var lowTop, highFloor := keys[0], keys[|keys| - 2];
    assert lowTop < Target(x) <= highFloor by {
      assert keys[0] <= keys[i - 1] && keys[i] <= keys[|keys| - 2];
    }
    ContributionInBucket(rows, keys, 0, limit);
    ContributionInBucket(rows, keys, |keys| - 1, limit);
    var b := first + last;
    assert BalancedAsWritten(previous, rows, keys, limit) == b;
    forall j | 0 <= j < |b| ensures b[j] != x {
      if j < |first| {
        assert Target(first[j]) <= lowTop;
      } else {
        assert highFloor < Target(last[j - |first|]);
      }
    }
  }

  // ------------------------------------------------------ the operation

  /** Why `balance_clean_data` stops before selecting: an empty table has no
      first target (an `IndexError`), and a table whose targets are all equal
      yields no bucket, so taking the maximum of no counts fails (a
      `ValueError`). */
  datatype BalanceError = EmptyTable | NoBuckets

  /** `all_targets`: the targets in ascending order. */
  function SortedTargets(rows: seq<Row>): (s: seq<real>)
    requires HasTargets(rows)
    ensures Outliers.Sorted(s)
    ensures |s| == |rows| && multiset(s) == multiset(TargetColumn(rows))
  {
    Outliers.Sort(TargetColumn(rows))
  }

  /** The keys derived from the first and last sorted target: one step apart,
      so strictly ascending. */
  function KeysFor(rows: seq<Row>): (keys: seq<real>)
    requires HasTargets(rows) && rows != []
    ensures StrictlyAscending(keys)
    ensures forall i :: 0 <= i < |keys| ==> keys[i] == keys[0] + i as real * StepSize
  {
    var s := SortedTargets(rows);
    BucketKeysAreSteps(s[0], s[|s| - 1]);
    BucketKeys(s[0], s[|s| - 1])
  }

  /** `limiting_factor`: the largest count over the sorted targets. It is the
      count of some bucket, no bucket of the table holds more targets, and it is
      at most the number of rows. */
  function Cap(rows: seq<Row>, keys: seq<real>): (c: nat)
    requires HasTargets(rows) && keys != []
    ensures c <= |rows|
    ensures forall i :: 0 <= i < |keys| ==> BucketCounts(TargetColumn(rows), keys)[i] <= c
    ensures exists i :: 0 <= i < |keys| && BucketCounts(TargetColumn(rows), keys)[i] == c
  {
    SortedCountsAgree(TargetColumn(rows), keys);
    MaxCount(BucketCounts(SortedTargets(rows), keys))
  }

  /** The cap is the largest count of the targets in table order too. */
  lemma CapInTableOrder(rows: seq<Row>, keys: seq<real>)
    requires HasTargets(rows) && keys != []
    ensures Cap(rows, keys) == MaxCount(BucketCounts(TargetColumn(rows), keys))
  {
    SortedCountsAgree(TargetColumn(rows), keys);
  }

  /** The outcome of `balance_clean_data` on the cleaned table `rows`, where
      `previous` is what `self.balanced_data` held before: the balanced table as
      the code writes it, or the error that stops it. A balanced table is the
      previous one or holds only rows of `rows`, none more often than there. */
  function Balance(previous: seq<Row>, rows: seq<Row>): (r: Result<seq<Row>, BalanceError>)
    requires HasTargets(rows)
    ensures r.Success? ==> r.value == previous || multiset(r.value) <= multiset(rows)
  {
    if rows == [] then Failure(EmptyTable)
    else
      var keys := KeysFor(rows);
      if keys == [] then Failure(NoBuckets)
      else
        var limit := Cap(rows, keys);
        AsWrittenFromRows(previous, rows, keys, limit);
        Success(BalancedAsWritten(previous, rows, keys, limit))
  }

  /** The table as written is the previous field (one bucket) or holds rows of
      the cleaned table, none more often than there. */
  lemma AsWrittenFromRows(previous: seq<Row>, rows: seq<Row>, keys: seq<real>, limit: nat)
    requires HasTargets(rows) && StrictlyAscending(keys) && |keys| > 0
    ensures var b := BalancedAsWritten(previous, rows, keys, limit);
      b == previous || multiset(b) <= multiset(rows)
  {
    if |keys| >= 2 {
      AsWrittenWithinIntended(rows, keys, limit);
      IntendedWithinRows(rows, keys, limit);
    }
  }

  /** The first and last of the sorted targets bound every target. */
  lemma SortedEnds(rows: seq<Row>)
    requires HasTargets(rows) && rows != []
    ensures var s := SortedTargets(rows);
      forall i :: 0 <= i < |rows| ==> s[0] <= Target(rows[i]) <= s[|s| - 1]
  {
    var ts := TargetColumn(rows);
    var s := SortedTargets(rows);
    forall i | 0 <= i < |rows| ensures s[0] <= Target(rows[i]) <= s[|s| - 1] {
      assert ts[i] in multiset(s);
      var k :| 0 <= k < |s| && s[k] == ts[i];
      assert s[0] <= s[k] <= s[|s| - 1];
    }
  }

  /** The first and last of the sorted targets are targets of the table. */
  lemma SortedEndsAreTargets(rows: seq<Row>)
    requires HasTargets(rows) && rows != []
    ensures var s := SortedTargets(rows);
      (exists i :: 0 <= i < |rows| && Target(rows[i]) == s[0]) &&
      (exists i :: 0 <= i < |rows| && Target(rows[i]) == s[|s| - 1])
  {
    var ts := TargetColumn(rows);
    var s := SortedTargets(rows);
    assert s[0] in multiset(ts) && s[|s| - 1] in multiset(ts);
    var i :| 0 <= i < |ts| && ts[i] == s[0];
    var j :| 0 <= j < |ts| && ts[j] == s[|s| - 1];
    assert Target(rows[i]) == s[0] && Target(rows[j]) == s[|s| - 1];
  }

  /** The balancer fails exactly on an empty table or on a table whose targets
      are all equal; otherwise it succeeds. */
  lemma BalanceErrors(previous: seq<Row>, rows: seq<Row>)
    requires HasTargets(rows)
    ensures Balance(previous, rows) == Failure(EmptyTable) <==> rows == []
    ensures Balance(previous, rows) == Failure(NoBuckets) <==>
      (rows != [] && forall i :: 0 <= i < |rows| ==> Target(rows[i]) == Target(rows[0]))
  {
    if rows != [] {
      var s := SortedTargets(rows);
      SortedEnds(rows);
      SortedEndsAreTargets(rows);
      NoBucketsIffConstant(s[0], s[|s| - 1]);
    }
  }

  /** With a single bucket the selection loop never assigns the field, so the
      balanced table is whatever it held before. */
  lemma OneBucketKeepsPrevious(previous: seq<Row>, rows: seq<Row>)
    requires HasTargets(rows) && rows != []
    requires var s := SortedTargets(rows); s[0] < s[|s| - 1] <= s[0] + StepSize
    ensures Balance(previous, rows) == Success(previous)
  {
    var s := SortedTargets(rows);
    OneBucketIffNarrow(s[0], s[|s| - 1]);
  }

  /** Every row of the table as written, with two or more buckets, lies in
      the first or the last bucket. */
  lemma AsWrittenOnlyOuterBuckets(previous: seq<Row>, rows: seq<Row>, keys: seq<real>, limit: nat)
    requires HasTargets(rows) && |keys| >= 2
    ensures var b := BalancedAsWritten(previous, rows, keys, limit);
      forall j :: 0 <= j < |b| ==>
        InRange(None, keys[0], Target(b[j])) ||
        InRange(Some(keys[|keys| - 2]), keys[|keys| - 1], Target(b[j]))
  {
    var first := Contribution(rows, keys, 0, limit);
    var last := Contribution(rows, keys, |keys| - 1, limit);
    ContributionInBucket(rows, keys, 0, limit);
    ContributionInBucket(rows, keys, |keys| - 1, limit);
    var b := first + last;
    assert forall j :: |first| <= j < |b| ==> b[j] == last[j - |first|];
  }

  /** On success the balanced table, as written, only holds rows of the
      cleaned table, never more often than they occur there, and with two or
      more buckets only rows of the first or last bucket. */
  lemma BalanceSpec(previous: seq<Row>, rows: seq<Row>)
    requires HasTargets(rows) && rows != [] && |KeysFor(rows)| >= 2
    ensures Balance(previous, rows).Success?
    ensures var keys := KeysFor(rows);
      var b := Balance(previous, rows).value;
      multiset(b) <= multiset(rows) &&
      forall j :: 0 <= j < |b| ==>
        InRange(None, keys[0], Target(b[j])) ||
        InRange(Some(keys[|keys| - 2]), keys[|keys| - 1], Target(b[j]))
  {
    var keys := KeysFor(rows);
    var limit := Cap(rows, keys);
    assert Balance(previous, rows).value == BalancedAsWritten(previous, rows, keys, limit);
    AsWrittenWithinIntended(rows, keys, limit);
    IntendedWithinRows(rows, keys, limit);
    AsWrittenOnlyOuterBuckets(previous, rows, keys, limit);
  }

  // ----------------------------------------------------------- an example

  /** Targets that span [0, 1], as min-max scaling leaves them, always give the
      five keys 0.2, 0.4, 0.6, 0.8 and 1.0. */
  lemma UnitSpanKeys(rows: seq<Row>, lowest: nat, highest: nat)
    requires HasTargets(rows) && lowest < |rows| && highest < |rows|
    requires forall i :: 0 <= i < |rows| ==> 0.0 <= Target(rows[i]) <= 1.0
    requires Target(rows[lowest]) == 0.0 && Target(rows[highest]) == 1.0
    ensures KeysFor(rows) == [0.2, 0.4, 0.6, 0.8, 1.0]
  {
    SortedEndsAt(rows, lowest, highest);
    UnitRangeKeys();
  }

  /** When the targets of rows `lowest` and `highest` bound every target, they
      are the first and the last sorted target. */
  lemma SortedEndsAt(rows: seq<Row>, lowest: nat, highest: nat)
    requires HasTargets(rows) && lowest < |rows| && highest < |rows|
    requires forall i :: 0 <= i < |rows| ==> Target(rows[lowest]) <= Target(rows[i]) <= Target(rows[highest])
    ensures var s := SortedTargets(rows);
      s[0] == Target(rows[lowest]) && s[|s| - 1] == Target(rows[highest])
  {
    var s := SortedTargets(rows);
    SortedEnds(rows);
    SortedEndsAreTargets(rows);
    assert s[0] <= Target(rows[lowest]) && Target(rows[highest]) <= s[|s| - 1];
  }

  /** Four targets spanning [0, 1] with one target in the second and one in
      the third bucket, such as 0.0, 0.3, 0.5 and 1.0. */
  predicate ExampleTargets(a: real, b: real, c: real, d: real)
  {
    a == 0.0 && 0.2 < b <= 0.4 && 0.4 < c <= 0.6 && d == 1.0
  }

  function ExampleKeys(): seq<real>
  {
    [0.2, 0.4, 0.6, 0.8, 1.0]
  }

  lemma CountInFour(a: real, b: real, c: real, d: real, lo: real, hi: real)
    ensures CountIn([a, b, c, d], lo, hi) ==
      (if lo < a <= hi then 1 else 0) + (if lo < b <= hi then 1 else 0) +
      (if lo < c <= hi then 1 else 0) + (if lo < d <= hi then 1 else 0)
  {
    assert [a, b, c, d][1..] == [b, c, d];
    assert [b, c, d][1..] == [c, d];
    assert [c, d][1..] == [d];
    assert [d][1..] == [];
    assert CountIn([d], lo, hi) == (if lo < d <= hi then 1 else 0) + CountIn([], lo, hi);
    assert CountIn([c, d], lo, hi) == (if lo < c <= hi then 1 else 0) + CountIn([d], lo, hi);
    assert CountIn([b, c, d], lo, hi) == (if lo < b <= hi then 1 else 0) + CountIn([c, d], lo, hi);
  }

  /** Bucket 0 counts (0, 0.2], which leaves out the target 0.0. */
  lemma ExampleCounts(a: real, b: real, c: real, d: real)
    requires ExampleTargets(a, b, c, d)
    ensures BucketCounts(TargetColumn([[a], [b], [c], [d]]), ExampleKeys()) == [0, 1, 1, 0, 1]
  {
    var ts := TargetColumn([[a], [b], [c], [d]]);
    assert ts == [a, b, c, d];
    CountInFour(a, b, c, d, 0.0, 0.2);
    CountInFour(a, b, c, d, 0.2, 0.4);
    CountInFour(a, b, c, d, 0.4, 0.6);
    CountInFour(a, b, c, d, 0.6, 0.8);
    CountInFour(a, b, c, d, 0.8, 1.0);
  }

  lemma ExampleMaxCount(counts: seq<nat>)
    requires counts == [0, 1, 1, 0, 1]
    ensures MaxCount(counts) == 1
  {
    assert counts[1..] == [1, 1, 0, 1] && counts[1..][1..] == [1, 0, 1];
    assert counts[1..][1..][1..] == [0, 1] && counts[1..][1..][1..][1..] == [1];
  }

  /** The keys are the five unit keys and the cap `limiting_factor` is 1. */
  lemma ExampleKeysAndCap(a: real, b: real, c: real, d: real)
    requires ExampleTargets(a, b, c, d)
    ensures KeysFor(ExampleRows(a, b, c, d)) == ExampleKeys()
    ensures Cap(ExampleRows(a, b, c, d), ExampleKeys()) == 1
  {
    var rows := ExampleRows(a, b, c, d);
    UnitSpanKeys(rows, 0, 3);
    ExampleCounts(a, b, c, d);
    ExampleMaxCount(BucketCounts(TargetColumn(rows), ExampleKeys()));
    CapInTableOrder(rows, ExampleKeys());
  }

  lemma RowsInRangeFour(a: Row, b: Row, c: Row, d: Row, lo: Option<real>, hi: real)
    requires |a| > 0 && |b| > 0 && |c| > 0 && |d| > 0
    ensures RowsInRange([a, b, c, d], lo, hi) ==
      (if InRange(lo, hi, Target(a)) then [a] else []) +
      ((if InRange(lo, hi, Target(b)) then [b] else []) +
       ((if InRange(lo, hi, Target(c)) then [c] else []) +
        (if InRange(lo, hi, Target(d)) then [d] else [])))
  {
    assert [a, b, c, d] == [a] + [b, c, d] && [b, c, d] == [b] + [c, d];
    assert [c, d] == [c] + [d] && [d] == [d] + [];
    RowsInRangeCons(a, [b, c, d], lo, hi);
    RowsInRangeCons(b, [c, d], lo, hi);
    RowsInRangeCons(c, [d], lo, hi);
    RowsInRangeCons(d, [], lo, hi);
    assert (if InRange(lo, hi, Target(d)) then [d] else []) + [] ==
      (if InRange(lo, hi, Target(d)) then [d] else []);
  }

  lemma RowsInRangeCons(x: Row, rest: seq<Row>, lo: Option<real>, hi: real)
    requires |x| > 0 && HasTargets(rest)
    ensures RowsInRange([x] + rest, lo, hi) ==
      (if InRange(lo, hi, Target(x)) then [x] else []) + RowsInRange(rest, lo, hi)
  {
    assert ([x] + rest)[1..] == rest;
  }

  /** The rows the selection mask gives for each key. */
  lemma ExampleBucket(a: real, b: real, c: real, d: real, i: nat)
    requires ExampleTargets(a, b, c, d) && i < 5
    ensures RowsInBucket([[a], [b], [c], [d]], ExampleKeys(), i) ==
      [[[a]], [[b]], [[c]], [], [[d]]][i]
  {
    var keys := ExampleKeys();
    RowsInRangeFour([a], [b], [c], [d], SelectionFloor(keys, i), keys[i]);
  }

  /** Each bucket holds at most one row, so the cap truncates nothing; the
      first bucket's selection has no lower bound and takes the row 0.0. */
  lemma ExampleContribution(a: real, b: real, c: real, d: real, i: nat)
    requires ExampleTargets(a, b, c, d) && i < 5
    ensures Contribution([[a], [b], [c], [d]], ExampleKeys(), i, 1) ==
      [[[a]], [[b]], [[c]], [], [[d]]][i]
  {
    ExampleBucket(a, b, c, d, i);
    TakeAll(RowsInBucket([[a], [b], [c], [d]], ExampleKeys(), i), 1);
  }

  lemma TakeAll<T>(s: seq<T>, n: nat)
    requires |s| <= n
    ensures Take(s, n) == s
  {
  }

  /** The intended loop gives back the whole table. */
  lemma ExampleIntended(a: real, b: real, c: real, d: real)
    requires ExampleTargets(a, b, c, d)
    ensures BalancedIntended([[a], [b], [c], [d]], ExampleKeys(), 1) == [[a], [b], [c], [d]]
  {
    var rows, keys := [[a], [b], [c], [d]], ExampleKeys();
    ExampleContribution(a, b, c, d, 0);
    ExampleContribution(a, b, c, d, 1);
    ExampleContribution(a, b, c, d, 2);
    ExampleContribution(a, b, c, d, 3);
    ExampleContribution(a, b, c, d, 4);
    assert Accumulated(rows, keys, 1, 1) == [] + [[a]];
    assert Accumulated(rows, keys, 1, 2) == [[a]] + [[b]];
    assert Accumulated(rows, keys, 1, 3) == [[a], [b]] + [[c]];
    assert Accumulated(rows, keys, 1, 4) == [[a], [b], [c]] + [];
    assert Accumulated(rows, keys, 1, 5) == [[a], [b], [c]] + [[d]];
  }

  /** The selection as written keeps the first and the last bucket. */
  lemma ExampleAsWritten(a: real, b: real, c: real, d: real)
    requires ExampleTargets(a, b, c, d)
    ensures BalancedAsWritten([], ExampleRows(a, b, c, d), ExampleKeys(), 1) == [[a], [d]]
  {
    ExampleContribution(a, b, c, d, 0);
    ExampleContribution(a, b, c, d, 4);
    assert BalancedAsWritten([], [[a], [b], [c], [d]], ExampleKeys(), 1) == [[a]] + [[d]];
  }

  /** `Balance` once the keys, the cap and the selection are known. */
  lemma BalanceByKeys(previous: seq<Row>, rows: seq<Row>, keys: seq<real>, limit: nat,
                      balanced: seq<Row>)
    requires HasTargets(rows) && rows != [] && keys != []
    requires KeysFor(rows) == keys && Cap(rows, keys) == limit
    requires BalancedAsWritten(previous, rows, keys, limit) == balanced
    ensures Balance(previous, rows) == Success(balanced)
  {
  }

  /** The example table: four rows, each holding only its target. */
  function ExampleRows(a: real, b: real, c: real, d: real): (rows: seq<Row>)
    ensures |rows| == 4 && HasTargets(rows)
  {
    [[a], [b], [c], [d]]
  }

  /** A concrete instance of `balance_clean_data`: targets 0.0, b, c and 1.0
      with b in (0.2, 0.4] and c in (0.4, 0.6], such as 0.0, 0.3, 0.5, 1.0,
      give the keys 0.2 to 1.0 and the cap 1. The code as written leaves only
      the rows 0.0 and 1.0 in `self.balanced_data` and loses b and c. */
  lemma AsWrittenExample(a: real, b: real, c: real, d: real)
    requires ExampleTargets(a, b, c, d)
    ensures KeysFor(ExampleRows(a, b, c, d)) == [0.2, 0.4, 0.6, 0.8, 1.0]
    ensures Cap(ExampleRows(a, b, c, d), KeysFor(ExampleRows(a, b, c, d))) == 1
    ensures Balance([], ExampleRows(a, b, c, d)) == Success([[a], [d]])
  {
    ExampleKeysAndCap(a, b, c, d);
    ExampleAsWritten(a, b, c, d);
    BalanceByKeys([], ExampleRows(a, b, c, d), ExampleKeys(), 1, [[a], [d]]);
  }

  /** On the same table the intended loop, with the keys derived from it and
      the cap 1, keeps all four rows. */
  lemma IntendedExample(a: real, b: real, c: real, d: real)
    requires ExampleTargets(a, b, c, d)
    ensures BalancedIntended(ExampleRows(a, b, c, d), KeysFor(ExampleRows(a, b, c, d)), 1) ==
      ExampleRows(a, b, c, d)
  {
    ExampleKeysAndCap(a, b, c, d);
    ExampleIntended(a, b, c, d);
  }
}
