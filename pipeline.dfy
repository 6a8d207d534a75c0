/** The `EstimatedClosingPrice` object: the switches for the three categorical
    feature groups, the cleaned and balanced tables it keeps between steps, the
    scaler, and the lowest validation loss with the model and scaler saved for
    it. Its methods update those fields as the source's methods do. */
module ClosingPrice {
  import opened Common
  import opened Balancer
  import Partition
  import Promotion
  import Scaling

  class EstimatedClosingPrice {
    const includeCounty: bool
    const includeStyle: bool
    const includeSeason: bool

    /** `self.clean_data`, rows with `Targets` last. */
    var cleanData: seq<Row>
    /** `self.balanced_data`. */
    var balancedData: seq<Row>
    /** `self.lowest_loss`. */
    var lowestLoss: Promotion.Loss
    /** `self.scaler_instance`: `None` until a column has been fitted. */
    var scalerInstance: Option<Scaling.ScalerState>
    /** `self.model`, by the identifier of the trained network. */
    var model: Option<nat>
    /** What the last dump of the scaler wrote, if one happened. */
    var savedScaler: Option<Option<Scaling.ScalerState>>
    /** Every `build_model` call so far. */
    ghost var runs: seq<Promotion.Run>

    /** Tables keep a `Targets` cell in every row, and the lowest loss, the
        model and the saved scaler are those of the best run so far. */
    ghost predicate Valid()
      reads this
    {
      HasTargets(cleanData) && HasTargets(balancedData) &&
      lowestLoss == Promotion.LowestLoss(runs) &&
      (runs == [] ==> model.None? && savedScaler.None?) &&
      (runs != [] ==>
        var best := runs[Promotion.BestIndex(runs)];
        model == Some(best.model) && savedScaler == Some(best.scaler))
    }

    /** Empty tables, no scaler, no model, and a lowest loss of +infinity. */
    constructor(includeCounty: bool, includeStyle: bool, includeSeason: bool)
      ensures Valid()
      ensures this.includeCounty == includeCounty && this.includeStyle == includeStyle
      ensures this.includeSeason == includeSeason
      ensures cleanData == [] && balancedData == []
      ensures lowestLoss == Promotion.Infinity && scalerInstance.None?
      ensures model.None? && savedScaler.None? && runs == []
    {
      this.includeCounty := includeCounty;
      this.includeStyle := includeStyle;
      this.includeSeason := includeSeason;
      cleanData := [];
      balancedData := [];
      lowestLoss := Promotion.Infinity;
      scalerInstance := None;
      model := None;
      savedScaler := None;
      runs := [];
    }

    /** The numeric scaling of `preprocess_raw_data`: one scaler object is
        refitted to each column in turn, so every column is scaled by its own
        minimum and maximum and `self.scaler_instance` ends up fitted to the
        last column, `Targets`. A column without values stops the loop: `fit`
        clears the scaler's fitted state before it rejects the empty column, so
        the scaler instance is left unfitted. */
    method ScaleNumericColumns(columns: seq<seq<real>>) returns (scaled: Option<seq<seq<real>>>)
      requires Valid()
      modifies this
      ensures Valid()
      ensures scaled.None? <==> exists i :: 0 <= i < |columns| && columns[i] == []
      ensures scaled.Some? ==> |scaled.value| == |columns|
      ensures scaled.Some? ==>
        forall i :: 0 <= i < |columns| ==> Scaling.FitTransform(columns[i]) == Some(scaled.value[i])
      ensures scaled.Some? && columns != [] ==> scalerInstance == Scaling.Fit(columns[|columns| - 1])
      ensures columns == [] ==> scalerInstance.None?
      ensures scaled.None? ==> scalerInstance.None?
      ensures cleanData == old(cleanData) && balancedData == old(balancedData)
      ensures lowestLoss == old(lowestLoss) && model == old(model)
      ensures savedScaler == old(savedScaler) && runs == old(runs)
    {
      // The field is bound to the one scaler object, so it follows every refit.
      var scaler: Option<Scaling.ScalerState> := None;
      var done: seq<seq<real>> := [];
      for i := 0 to |columns|
        invariant |done| == i
        invariant forall k :: 0 <= k < i ==> columns[k] != [] && Scaling.FitTransform(columns[k]) == Some(done[k])
        invariant i > 0 ==> scaler == Scaling.Fit(columns[i - 1])
        invariant i == 0 ==> scaler.None?
      {
        var fitted := Scaling.FitTransform(columns[i]);
        if fitted.None? {
          scalerInstance := None;
          return None;
        }
        scaler := Scaling.Fit(columns[i]);
        done := done + [fitted.value];
      }
      scalerInstance := scaler;
      scaled := Some(done);
    }

    /** `self.clean_data = data_with_dummies` at the end of `preprocess_raw_data`. */
    method StoreCleanData(data: seq<Row>)
      requires Valid() && HasTargets(data)
      modifies this
      ensures Valid()
      ensures cleanData == data && balancedData == old(balancedData)
      ensures scalerInstance == old(scalerInstance) && lowestLoss == old(lowestLoss)
      ensures model == old(model) && savedScaler == old(savedScaler) && runs == old(runs)
    {
      cleanData := data;
    }

    /** `balance_clean_data`. The targets are sorted, the keys derived from
        the first and last of them, every bucket counted, and the largest count
        taken as the cap. The selection loop then sets the local table at the
        first key and, at every later key, assigns the field that local table
        plus the key's bucket: the field ends up as stated by `Balance`. On an
        error nothing changes. */
    method BalanceCleanData() returns (error: Option<BalanceError>)
      requires Valid()
      modifies this
      ensures Valid()
      ensures Balance(old(balancedData), cleanData).Failure? ==>
        (error == Some(Balance(old(balancedData), cleanData).error) && balancedData == old(balancedData))
      ensures Balance(old(balancedData), cleanData).Success? ==>
        (error.None? && balancedData == Balance(old(balancedData), cleanData).value)
      ensures cleanData == old(cleanData) && scalerInstance == old(scalerInstance)
      ensures lowestLoss == old(lowestLoss) && model == old(model)
      ensures savedScaler == old(savedScaler) && runs == old(runs)
    {
      var sortedTargets := SortedTargets(cleanData);
      if |sortedTargets| == 0 {
        return Some(EmptyTable);
      }
      var keys := BucketKeys(sortedTargets[0], sortedTargets[|sortedTargets| - 1]);
      var counts := CountBuckets(sortedTargets, keys);
      if |counts| == 0 {
        return Some(NoBuckets);
      }
      var limit := MaxCount(counts);
      SelectBuckets(keys, limit);
      error := None;
    }

    /** The selection loop of `balance_clean_data` over the keys, with the
        cap `limit`. */
    method SelectBuckets(keys: seq<real>, limit: nat)
      requires Valid() && |keys| > 0
      modifies this
      ensures Valid()
      ensures balancedData == BalancedAsWritten(old(balancedData), cleanData, keys, limit)
      ensures cleanData == old(cleanData) && scalerInstance == old(scalerInstance)
      ensures lowestLoss == old(lowestLoss) && model == old(model)
      ensures savedScaler == old(savedScaler) && runs == old(runs)
    {
      ghost var previous := balancedData;
      var balanced: seq<Row> := [];
      for index := 0 to |keys|
        invariant cleanData == old(cleanData) && scalerInstance == old(scalerInstance)
        invariant lowestLoss == old(lowestLoss) && model == old(model)
        invariant savedScaler == old(savedScaler) && runs == old(runs)
        invariant HasTargets(balancedData) && HasTargets(balanced)
        invariant index > 0 ==> balanced == Contribution(cleanData, keys, 0, limit)
        invariant index <= 1 ==> balancedData == previous
        invariant index > 1 ==>
          balancedData == Contribution(cleanData, keys, 0, limit) + Contribution(cleanData, keys, index - 1, limit)
      {
        if index == 0 {
          balanced := Take(RowsInRange(cleanData, None, keys[0]), limit);
        } else {
          var truncated := Take(RowsInRange(cleanData, Some(keys[index - 1]), keys[index]), limit);
          balancedData := balanced + truncated;
        }
      }
    }

    /** `prepare_tensor_data`: the field is replaced by its shuffle and the
        three chunks are cut and split into inputs and targets. */
    method PrepareTensorData(perm: seq<int>, trainPortion: real, validationPortion: real)
      returns (data: Partition.TensorData)
      requires Valid() && Partition.IsPermutation(perm, |balancedData|)
      modifies this
      ensures Valid()
      ensures balancedData == Partition.Shuffle(old(balancedData), perm)
      ensures data == Partition.PrepareTensorData(old(balancedData), perm, trainPortion, validationPortion)
      ensures cleanData == old(cleanData) && scalerInstance == old(scalerInstance)
      ensures lowestLoss == old(lowestLoss) && model == old(model)
      ensures savedScaler == old(savedScaler) && runs == old(runs)
    {
      balancedData := Partition.Shuffle(balancedData, perm);
      var n := |balancedData|;
      var trainingRows := Partition.TrainingRows(n, trainPortion);
      var validationRows := Partition.ValidationRows(n, trainPortion, validationPortion);
      var train := Partition.PySlice(balancedData, 0, trainingRows);
      var validation := Partition.PySlice(balancedData, trainingRows, validationRows);
      var test := Partition.PySlice(balancedData, validationRows, n);
      data := Partition.TensorData(Partition.SplitColumns(train), Partition.SplitColumns(validation),
                                   Partition.SplitColumns(test));
    }

    /** The promotion at the end of `build_model`: when the final validation
        loss is strictly below the lowest loss, it becomes the lowest loss, the
        trained network becomes the model and the current scaler is dumped;
        otherwise nothing changes. */
    method BuildModel(finalValLoss: real, trained: nat) returns (promoted: bool)
      requires Valid()
      modifies this
      ensures Valid()
      ensures runs == old(runs) + [Promotion.Run(finalValLoss, trained, scalerInstance)]
      ensures promoted <==> Promotion.Below(finalValLoss, old(lowestLoss))
      ensures promoted ==> lowestLoss == Promotion.Finite(finalValLoss)
      ensures promoted ==> model == Some(trained) && savedScaler == Some(scalerInstance)
      ensures !promoted ==> lowestLoss == old(lowestLoss)
      ensures !promoted ==> model == old(model) && savedScaler == old(savedScaler)
      ensures Promotion.AtMost(lowestLoss, old(lowestLoss))
      ensures cleanData == old(cleanData) && balancedData == old(balancedData)
      ensures scalerInstance == old(scalerInstance)
    {
      var run := Promotion.Run(finalValLoss, trained, scalerInstance);
      ghost var after := runs + [run];
      Promotion.PromotionStep(runs, run);
      promoted := Promotion.Below(finalValLoss, lowestLoss);
      if promoted {
        assert after[Promotion.BestIndex(after)] == run;
        lowestLoss := Promotion.Finite(finalValLoss);
        model := Some(trained);
        savedScaler := Some(scalerInstance);
      } else if runs != [] {
        assert after[Promotion.BestIndex(after)] == runs[Promotion.BestIndex(runs)];
      }
      runs := after;
    }
  }
}
