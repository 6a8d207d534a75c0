/** The best-loss rule of `build_model`: a trained model, and the scaler of that
    moment, are kept only when the model's final validation loss is strictly
    below the lowest loss seen so far, which starts at +infinity. Training is
    outside the model; a run is described by its final validation loss, an
    identifier for the trained network and the scaler at that time. */
module Promotion {
  import opened Common
  import Scaling

  /** The lowest loss so far: `np.inf` at first, then a finite loss. */
  datatype Loss = Infinity | Finite(value: real)

  /** `x < lowest_loss`: every finite loss is below `np.inf`. */
  predicate Below(x: real, l: Loss)
  {
    l.Infinity? || x < l.value
  }

  /** `l` is no greater than `m`. */
  predicate AtMost(l: Loss, m: Loss)
  {
    m.Infinity? || (l.Finite? && l.value <= m.value)
  }

  /** One call of `build_model`. */
  datatype Run = Run(valLoss: real, model: nat, scaler: Option<Scaling.ScalerState>)

  /** The run whose artifacts stay saved after `runs`: each run replaces the
      kept one only when its loss is strictly lower. It is the first run of the
      lowest loss. */
  function BestIndex(runs: seq<Run>): (i: nat)
    requires |runs| > 0
    ensures i < |runs|
    ensures forall j :: 0 <= j < |runs| ==> runs[i].valLoss <= runs[j].valLoss
    ensures forall j :: 0 <= j < i ==> runs[i].valLoss < runs[j].valLoss
    decreases |runs|
  {
    var n := |runs|;
    if n == 1 then 0
    else
      var init := runs[..n - 1];
      var best := BestIndex(init);
      assert forall j :: 0 <= j < n - 1 ==> init[j] == runs[j];
      if runs[n - 1].valLoss < runs[best].valLoss then n - 1 else best
  }

  /** `self.lowest_loss` after `runs`. */
  function LowestLoss(runs: seq<Run>): (l: Loss)
    ensures l.Infinity? <==> runs == []
    ensures l.Finite? ==> exists j :: 0 <= j < |runs| && runs[j].valLoss == l.value
    ensures l.Finite? ==> forall j :: 0 <= j < |runs| ==> l.value <= runs[j].valLoss
  {
    if runs == [] then Infinity else Finite(runs[BestIndex(runs)].valLoss)
  }

  /** One more run promotes itself exactly when its loss is below the lowest so
      far; otherwise the kept run and the lowest loss stay as they were. */
  lemma {:induction false} PromotionStep(runs: seq<Run>, r: Run)
    ensures var after := runs + [r];
      (Below(r.valLoss, LowestLoss(runs)) ==>
        BestIndex(after) == |runs| && LowestLoss(after) == Finite(r.valLoss)) &&
      (!Below(r.valLoss, LowestLoss(runs)) ==>
        BestIndex(after) == BestIndex(runs) && LowestLoss(after) == LowestLoss(runs))
  {
    var after := runs + [r];
    if runs != [] {
      assert after[..|after| - 1] == runs;
    }
  }

  /** The lowest loss never increases. */
  lemma LowestLossNeverIncreases(runs: seq<Run>, r: Run)
    ensures AtMost(LowestLoss(runs + [r]), LowestLoss(runs))
  {
    PromotionStep(runs, r);
  }

  /** A loss equal to the lowest one leaves the kept run in place. */
  lemma EqualLossKeepsIncumbent(runs: seq<Run>, r: Run)
    requires runs != [] && r.valLoss == LowestLoss(runs).value
    ensures BestIndex(runs + [r]) == BestIndex(runs)
  {
    PromotionStep(runs, r);
  }
}
