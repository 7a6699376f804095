/** Model-order selection in the BIC script: one Gaussian mixture is fitted per
    candidate component count, each is scored, and the first candidate with the
    lowest score wins. Fitting and scoring are floating-point library code outside
    the model: each fitted model is an opaque value and its score an input. */
module ModelOrder {

  /** `list(range(2, 10))`: the component counts tried. */
  const Candidates: seq<int> := [2, 3, 4, 5, 6, 7, 8, 9]

  /** Python's `min(xs)`: a least element of a non-empty list. */
  function Min(xs: seq<real>): (m: real)
    requires |xs| > 0
    ensures m in xs
    ensures forall i :: 0 <= i < |xs| ==> m <= xs[i]
  {
    if |xs| == 1 then xs[0]
    else
      var rest := Min(xs[1..]);
      if xs[0] <= rest then xs[0] else rest
  }

  /** Python's `xs.index(x)`: the first position holding `x`. The list must hold it;
      otherwise Python raises. */
  function IndexOf(xs: seq<real>, x: real): (i: nat)
    requires x in xs
    ensures i < |xs| && xs[i] == x
    ensures forall j :: 0 <= j < i ==> xs[j] != x
  {
    if xs[0] == x then 0 else 1 + IndexOf(xs[1..], x)
  }

  /** The outcome of the selection: the winning component count, the fitted model
      that goes with it, and the position both were taken from. */
  datatype Selection<M> = Selection(components: int, model: M, index: nat)

  /** `best_n = n_components[bics.index(min(bics))]` and
      `best_model = models[bics.index(min(bics))]`. The winner is a candidate count,
      its score is the least score, every earlier candidate scored strictly higher
      (ties go to the smaller count), and count and model come from the same
      position. */
  function Select<M>(scores: seq<real>, models: seq<M>): (s: Selection<M>)
    requires |scores| == |Candidates| && |models| == |Candidates|
    ensures 2 <= s.components <= 9
    ensures s.index < |Candidates|
    ensures s.components == Candidates[s.index] && s.model == models[s.index]
    ensures forall j :: 0 <= j < |scores| ==> scores[s.index] <= scores[j]
    ensures forall j :: 0 <= j < s.index ==> scores[j] > scores[s.index]
  {
    var best := Min(scores);
    var i := IndexOf(scores, best);
    Selection(Candidates[i], models[i], i)
  }
}
