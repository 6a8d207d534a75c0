/** `prepare_tensor_data`: the balanced table is shuffled by a permutation of its
    row positions, cut into training, validation and test rows at two rounded
    boundaries, and each piece is split into its feature columns and its
    `Targets` column. The permutation, drawn at random by the source, is a
    parameter here. Slices follow Python's rules for negative and oversized
    bounds. */
module Partition {
  import opened Common
  import opened Rounding
  import Balancer

  type Row = Balancer.Row

  // --------------------------------------------------------- Python slices

  /** How Python turns a slice bound into a position of a sequence of length
      n: a negative bound counts from the end, and the result is clamped to
      [0, n]. */
  function SliceIndex(i: int, n: nat): (r: nat)
    ensures r <= n
    ensures 0 <= i <= n ==> r == i
    ensures i > n ==> r == n
    ensures -(n as int) <= i < 0 ==> r == n + i
    ensures i < -(n as int) ==> r == 0
  {
    if i < 0 then (if n + i < 0 then 0 else n + i)
    else if i > n then n
    else i
  }

  /** `s[i:j]`: empty when the normalised start is not before the normalised end. */
  function PySlice<T>(s: seq<T>, i: int, j: int): (r: seq<T>)
    ensures var lo, hi := SliceIndex(i, |s|), SliceIndex(j, |s|);
      (lo <= hi ==> r == s[lo..hi]) && (hi < lo ==> r == [])
  {
    var lo, hi := SliceIndex(i, |s|), SliceIndex(j, |s|);
    if lo <= hi then s[lo..hi] else []
  }

  /** Three slices at bounds `0 <= a <= b <= |s|` put back together give `s`. */
  lemma SlicesJoin<T>(s: seq<T>, a: int, b: int)
    requires 0 <= a <= b <= |s|
    ensures PySlice(s, 0, a) + PySlice(s, a, b) + PySlice(s, b, |s|) == s
    ensures |PySlice(s, 0, a)| == a && |PySlice(s, a, b)| == b - a && |PySlice(s, b, |s|)| == |s| - b
  {
    assert s[0..a] + s[a..b] + s[b..|s|] == s;
  }

  // ------------------------------------------------------------ shuffling

  /** `perm` lists every position 0..n-1 exactly once, as
      `np.random.permutation(n)` does. */
  ghost predicate IsPermutation(perm: seq<int>, n: nat)
  {
    |perm| == n &&
    (forall k :: 0 <= k < n ==> 0 <= perm[k] < n) &&
    (forall k, l :: 0 <= k < l < n ==> perm[k] != perm[l]) &&
    (forall v :: 0 <= v < n ==> v in perm)
  }

  /** `iloc[perm]`: row k of the result is row `perm[k]` of the table. */
  function Shuffle(rows: seq<Row>, perm: seq<int>): (r: seq<Row>)
    requires forall k :: 0 <= k < |perm| ==> 0 <= perm[k] < |rows|
    ensures |r| == |perm|
    ensures forall k :: 0 <= k < |perm| ==> r[k] == rows[perm[k]]
  {
    seq(|perm|, k requires 0 <= k < |perm| => rows[perm[k]])
  }

  /** Removing the position of the last row from a permutation of n positions
      leaves a permutation of n - 1 positions. */
  lemma DropLastPosition(perm: seq<int>, n: nat, k: nat)
    requires n > 0 && IsPermutation(perm, n) && k < n && perm[k] == n - 1
    ensures IsPermutation(perm[..k] + perm[k + 1..], n - 1)
  {
    var p := perm[..k] + perm[k + 1..];
    assert forall l :: 0 <= l < n - 1 ==> p[l] == if l < k then perm[l] else perm[l + 1];
    forall v | 0 <= v < n - 1
      ensures v in p
    {
      assert v in perm;
      var m :| 0 <= m < n && perm[m] == v;
      if m < k {
        assert p[m] == v;
      } else {
        assert p[m - 1] == v;
      }
    }
  }

  /** Shuffling the table without its last row by the permutation without that
      row's position, `p`, gives the shuffled table without that row. */
  lemma ShuffleWithoutLast(rows: seq<Row>, perm: seq<int>, k: nat) returns (p: seq<int>)
    requires |rows| > 0 && IsPermutation(perm, |rows|) && k < |rows| && perm[k] == |rows| - 1
    ensures IsPermutation(p, |rows| - 1)
    ensures var shuffled := Shuffle(rows, perm);
      Shuffle(rows[..|rows| - 1], p) == shuffled[..k] + shuffled[k + 1..]
  {
    var n := |rows|;
    p := perm[..k] + perm[k + 1..];
    DropLastPosition(perm, n, k);
    var shuffled := Shuffle(rows, perm);
    var smaller := Shuffle(rows[..n - 1], p);
    var cut := shuffled[..k] + shuffled[k + 1..];
    forall l | 0 <= l < n - 1
      ensures smaller[l] == cut[l]
    {
      var m := if l < k then l else l + 1;
      assert p[l] == perm[m] && cut[l] == shuffled[m];
      assert perm[m] != perm[k];
    }
  }

  /** Where a permutation of n positions lists position v. */
  lemma PositionOf(perm: seq<int>, n: nat, v: int) returns (k: nat)
    requires IsPermutation(perm, n) && 0 <= v < n
    ensures k < n && perm[k] == v
  {
    assert v in perm;
    k :| 0 <= k < n && perm[k] == v;
  }

  /** Shuffling by a permutation neither loses nor duplicates a row. */
  lemma {:induction false} ShuffleIsPermutation(rows: seq<Row>, perm: seq<int>)
    requires IsPermutation(perm, |rows|)
    ensures multiset(Shuffle(rows, perm)) == multiset(rows)
    decreases |rows|
  {
    var n := |rows|;
    if n > 0 {
      var k := PositionOf(perm, n, n - 1);
      var p := ShuffleWithoutLast(rows, perm, k);
      ShuffleIsPermutation(rows[..n - 1], p);
      PutBackLast(Shuffle(rows, perm), k, Shuffle(rows[..n - 1], p), rows);
    }
  }

  /** A sequence that, without its element at position k, has the multiset of
      `rows` without its last row, and whose element at k is that last row,
      has the multiset of `rows`. */
  lemma PutBackLast<T>(s: seq<T>, k: nat, smaller: seq<T>, rows: seq<T>)
    requires k < |s| && |rows| > 0 && s[k] == rows[|rows| - 1]
    requires smaller == s[..k] + s[k + 1..]
    requires multiset(smaller) == multiset(rows[..|rows| - 1])
    ensures multiset(s) == multiset(rows)
  {
    RemovedMultiset(s, k);
    assert rows == rows[..|rows| - 1] + [rows[|rows| - 1]];
  }

  // -------------------------------------------------------------- columns

  /** `iloc[:, :-1]` on one row: every cell but the last. */
  function Features(r: Row): (f: Row)
    ensures |r| > 0 ==> f == r[..|r| - 1]
    ensures r == [] ==> f == []
  {
    PySlice(r, 0, -1)
  }

  /** `iloc[:, -1:]` on one row: the last cell, as a one-column row. */
  function TargetCell(r: Row): (t: Row)
    ensures |r| > 0 ==> t == [r[|r| - 1]]
    ensures r == [] ==> t == []
  {
    PySlice(r, -1, |r|)
  }

  /** The two column pieces of a row put together give the row back, and the
      target piece of a non-empty row is exactly its `Targets` cell. */
  lemma ColumnsSplitRow(r: Row)
    ensures Features(r) + TargetCell(r) == r
    ensures |r| > 0 ==> TargetCell(r) == [Balancer.Target(r)] && |Features(r)| == |r| - 1
    ensures r == [] ==> Features(r) == [] && TargetCell(r) == []
  {
    if |r| > 0 {
      assert r[0..|r| - 1] + r[|r| - 1..|r|] == r;
    }
  }

  /** One chunk of the shuffled table, split into inputs and targets. */
  datatype Split = Split(inputs: seq<Row>, targets: seq<Row>)

  function SplitColumns(rows: seq<Row>): (s: Split)
    ensures |s.inputs| == |rows| && |s.targets| == |rows|
    ensures forall k :: 0 <= k < |rows| ==> s.inputs[k] == Features(rows[k])
    ensures forall k :: 0 <= k < |rows| ==> s.targets[k] == TargetCell(rows[k])
  {
    Split(seq(|rows|, k requires 0 <= k < |rows| => Features(rows[k])),
          seq(|rows|, k requires 0 <= k < |rows| => TargetCell(rows[k])))
  }

  /** Inputs and targets line up: joining row k of each gives row k of the chunk. */
  lemma SplitColumnsRejoin(rows: seq<Row>, k: nat)
    requires k < |rows|
    ensures SplitColumns(rows).inputs[k] + SplitColumns(rows).targets[k] == rows[k]
  {
    ColumnsSplitRow(rows[k]);
  }

  // ---------------------------------------------------------------- split

  /** `int(round(n * train))`: not negative for a proportion that is not
      negative, and at most `n` for a proportion of at most 1. */
  function TrainingRows(n: nat, train: real): (k: int)
    ensures 0.0 <= train ==> 0 <= k
    ensures train <= 1.0 ==> k <= n
  {
    ShareNotNegative(n, train);
    ShareAtMostAll(n, train);
    RoundHalfEven(n as real * train)
  }

  /** `int(round(n * (train + validation)))`: never before the training bound
      when the validation proportion is not negative, and at most `n` when the
      two proportions add up to at most 1. */
  function ValidationRows(n: nat, train: real, validation: real): (k: int)
    ensures 0.0 <= validation ==> TrainingRows(n, train) <= k
    ensures train + validation <= 1.0 ==> k <= n
  {
    var both := train + validation;
    var k := RoundHalfEven(n as real * both);
    ValidationAfterTraining(n, train, both);
    ShareAtMostAll(n, both);
    assert 0.0 <= validation ==> train <= both;
    k
  }

  /** A bound at a larger proportion never comes before the training bound. */
  lemma {:induction false} ValidationAfterTraining(n: nat, train: real, both: real)
    ensures train <= both ==> TrainingRows(n, train) <= RoundHalfEven(n as real * both)
  {
    if train <= both {
      var k := RoundHalfEven(n as real * train);
      assert TrainingRows(n, train) == k;
      ShareMonotone(n, train, both);
    }
  }

  /** `round(n * p)` is not negative for `p >= 0`. */
  lemma {:induction false} ShareNotNegative(n: nat, p: real)
    ensures 0.0 <= p ==> 0 <= RoundHalfEven(n as real * p)
  {
    if 0.0 <= p {
      ProductNonNegative(n as real, p);
      RoundInteger(0);
      RoundMonotone(0.0, n as real * p);
    }
  }

  /** `round(n * p)` is at most `n` for `p <= 1`. */
  lemma {:induction false} ShareAtMostAll(n: nat, p: real)
    ensures p <= 1.0 ==> RoundHalfEven(n as real * p) <= n
  {
    if p <= 1.0 {
      var x := n as real * p;
      ProductNonNegative(n as real, 1.0 - p);
      assert n as real * (1.0 - p) == n as real - x;
      RoundInteger(n);
      RoundMonotone(x, n as real);
    }
  }

  /** `round(n * p)` grows with `p`. */
  lemma {:induction false} ShareMonotone(n: nat, p: real, q: real)
    ensures p <= q ==> RoundHalfEven(n as real * p) <= RoundHalfEven(n as real * q)
  {
    if p <= q {
      var x, y := n as real * p, n as real * q;
      ProductNonNegative(n as real, q - p);
      assert n as real * (q - p) == y - x;
      RoundMonotone(x, y);
    }
  }

  datatype TensorData = TensorData(training: Split, validation: Split, test: Split)

  /** The three chunks of a shuffled table. For proportions that are not
      negative they cut the table in three, however large the proportions:
      a bound past the end is clamped to it. */
  function Chunks(shuffled: seq<Row>, train: real, validation: real): (r: seq<seq<Row>>)
    ensures |r| == 3
    ensures 0.0 <= train && 0.0 <= validation ==> r[0] + r[1] + r[2] == shuffled
  {
    var n := |shuffled|;
    var tr, vr := TrainingRows(n, train), ValidationRows(n, train, validation);
    ClampedSlicesJoin(shuffled, tr, vr);
    [PySlice(shuffled, 0, tr), PySlice(shuffled, tr, vr), PySlice(shuffled, vr, n)]
  }

  /** Slices at ordered bounds that are not negative, clamped at the end, put
      back together give the sequence. */
  lemma ClampedSlicesJoin<T>(s: seq<T>, a: int, b: int)
    ensures 0 <= a <= b ==> PySlice(s, 0, a) + PySlice(s, a, b) + PySlice(s, b, |s|) == s
  {
    if 0 <= a <= b {
      var lo, hi := SliceIndex(a, |s|), SliceIndex(b, |s|);
      assert s[0..lo] + s[lo..hi] + s[hi..|s|] == s;
    }
  }

  /** The data `prepare_tensor_data` saves, for a given shuffle: in every
      chunk the inputs and targets line up, and for proportions that are not
      negative the chunks together hold as many rows as the table. */
  function PrepareTensorData(balanced: seq<Row>, perm: seq<int>, train: real, validation: real)
    : (r: TensorData)
    requires IsPermutation(perm, |balanced|)
    ensures |r.training.inputs| == |r.training.targets|
    ensures |r.validation.inputs| == |r.validation.targets|
    ensures |r.test.inputs| == |r.test.targets|
    ensures 0.0 <= train && 0.0 <= validation ==>
      |r.training.inputs| + |r.validation.inputs| + |r.test.inputs| == |balanced|
  {
    var c := Chunks(Shuffle(balanced, perm), train, validation);
    TensorData(SplitColumns(c[0]), SplitColumns(c[1]), SplitColumns(c[2]))
  }

  /** Proportions that are not negative and add up to at most 1 put the two
      boundaries in order inside the table. */
  lemma BoundsOrdered(n: nat, train: real, validation: real)
    requires 0.0 <= train && 0.0 <= validation && train + validation <= 1.0
    ensures 0 <= TrainingRows(n, train) <= ValidationRows(n, train, validation) <= n
  {
    var x, y := n as real * train, n as real * (train + validation);
    assert 0.0 <= x <= y <= n as real by {
      ProductNonNegative(n as real, train);
      ProductNonNegative(n as real, validation);
      ProductNonNegative(n as real, 1.0 - train - validation);
      assert y == x + n as real * validation;
      assert n as real == y + n as real * (1.0 - train - validation);
    }
    RoundWithin(x, n);
    RoundWithin(y, n);
    RoundMonotone(x, y);
  }

  /** With ordered bounds the three chunks are the shuffled table cut in
      three, so together they hold every balanced row exactly once. */
  lemma ChunksPartitionRows(balanced: seq<Row>, perm: seq<int>, train: real, validation: real)
    requires IsPermutation(perm, |balanced|)
    requires 0.0 <= train && 0.0 <= validation && train + validation <= 1.0
    ensures var shuffled := Shuffle(balanced, perm);
      var c := Chunks(shuffled, train, validation);
      var n := |balanced|;
      c[0] + c[1] + c[2] == shuffled &&
      |c[0]| == TrainingRows(n, train) &&
      |c[0]| + |c[1]| == ValidationRows(n, train, validation) &&
      multiset(c[0] + c[1] + c[2]) == multiset(balanced)
  {
    var n := |balanced|;
    var shuffled := Shuffle(balanced, perm);
    BoundsOrdered(n, train, validation);
    SlicesJoin(shuffled, TrainingRows(n, train), ValidationRows(n, train, validation));
    ShuffleIsPermutation(balanced, perm);
  }

  /** Every chunk keeps its inputs and targets aligned row for row, and each
      target row is the single `Targets` cell of its row. */
  lemma TensorDataAligned(balanced: seq<Row>, perm: seq<int>, train: real, validation: real)
    requires IsPermutation(perm, |balanced|) && Balancer.HasTargets(balanced)
    ensures var d := PrepareTensorData(balanced, perm, train, validation);
      forall s :: s in [d.training, d.validation, d.test] ==>
        |s.inputs| == |s.targets| &&
        forall k :: 0 <= k < |s.targets| ==> |s.targets[k]| == 1 && s.inputs[k] + s.targets[k] in balanced
  {
    var shuffled := Shuffle(balanced, perm);
    var c := Chunks(shuffled, train, validation);
    forall j, k | 0 <= j < 3 && 0 <= k < |c[j]|
      ensures |SplitColumns(c[j]).targets[k]| == 1
      ensures SplitColumns(c[j]).inputs[k] + SplitColumns(c[j]).targets[k] in balanced
    {
      assert c[j][k] in shuffled;
      ShuffledRowIsRow(balanced, perm, c[j][k]);
      ColumnsSplitRow(c[j][k]);
    }
    var d := PrepareTensorData(balanced, perm, train, validation);
    assert d.training == SplitColumns(c[0]) && d.validation == SplitColumns(c[1]) && d.test == SplitColumns(c[2]);
  }

  /** Every row of the shuffled table is a row of the table. */
  lemma ShuffledRowIsRow(balanced: seq<Row>, perm: seq<int>, x: Row)
    requires IsPermutation(perm, |balanced|) && x in Shuffle(balanced, perm)
    ensures x in balanced
  {
    var shuffled := Shuffle(balanced, perm);
    var m :| 0 <= m < |shuffled| && shuffled[m] == x;
    assert x == balanced[perm[m]];
  }

  /** The proportions `prepare_raw_data` passes, 0.85 and 0.10, cut 200 rows
      into 170 training, 20 validation and 10 test rows. */
  lemma TwoHundredRows()
    ensures TrainingRows(200, 0.85) == 170
    ensures ValidationRows(200, 0.85, 0.10) == 190
  {
    RoundInteger(170);
    RoundInteger(190);
    assert 200 as real * 0.85 == 170 as real;
    assert 200 as real * (0.85 + 0.10) == 190 as real;
  }

  /** A half-way product rounds to the even count: 5 rows at 0.5 give 2
      training rows, not 3. */
  lemma HalfWayRoundsToEven()
    ensures TrainingRows(5, 0.5) == 2
  {
    RoundHalfEvenUnique(2.5, 2);
  }

  lemma TrainingRowsAtLeast(n: nat, train: real)
    requires train >= 1.0
    ensures TrainingRows(n, train) >= n
  {
    ProductNonNegative(n as real, train - 1.0);
    RoundInteger(n);
    RoundMonotone(n as real, n as real * train);
  }

  /** A proportion above 1 cannot take more rows than there are: the slice is
      clamped to the end of the table. */
  lemma OversizedProportionClamped(shuffled: seq<Row>, train: real)
    requires train >= 1.0
    ensures PySlice(shuffled, 0, TrainingRows(|shuffled|, train)) == shuffled
  {
    var n := |shuffled|;
    TrainingRowsAtLeast(n, train);
    assert SliceIndex(TrainingRows(n, train), n) == n;
    assert shuffled[0..n] == shuffled;
  }
}
