/**
 * The pure parts of src/BetterSupervisedLearning.py: the rule-based labeller,
 * the training targets `0 if n % 2 else 1`, the parity feature `n % 2`, and the
 * decoding of predictions back to "Even" and "Odd". The learners themselves
 * are not part of this model.
 */
module SupervisedLabels {
  import opened RulesBased

  /** `rule_based_odd_even`: the loop that appends one label per number. */
  method RuleBasedOddEven(numbers: seq<int>) returns (results: seq<string>)
    ensures |results| == |numbers|
    ensures forall i :: 0 <= i < |numbers| ==> results[i] == RuleBasedClassifier(numbers[i])
  {
    results := [];
    for k := 0 to |numbers|
      invariant |results| == k
      invariant forall i :: 0 <= i < k ==> results[i] == RuleBasedClassifier(numbers[i])
    {
      var num := numbers[k];
      var parity := if num % 2 == 0 then "Even" else "Odd";
      results := results + [parity];
    }
  }

  /** The training target of one number: `0 if n % 2 else 1`. */
  function EncodeLabel(n: int): (y: int)
    ensures y == 0 || y == 1
    ensures y == 1 <==> n % 2 == 0
  {
    if n % 2 != 0 then 0 else 1
  }

  /** The engineered feature of one number: `n % 2`. */
  function ModFeature(n: int): (x: int)
    ensures 0 <= x < 2
    ensures x == 0 <==> RuleBasedClassifier(n) == "Even"
  {
    n % 2
  }

  /** A prediction read back as a label: `"Even" if p == 1 else "Odd"`. */
  function DecodePrediction(p: int): (parity: string)
    ensures parity == "Even" || parity == "Odd"
    ensures parity == "Even" <==> p == 1
  {
    if p == 1 then "Even" else "Odd"
  }

  /** `np.array([0 if n % 2 else 1 for n in train_numbers])`. */
  function EncodeLabels(numbers: seq<int>): (ys: seq<int>)
    ensures |ys| == |numbers|
    ensures forall i :: 0 <= i < |numbers| ==> (ys[i] == 1 <==> numbers[i] % 2 == 0)
    ensures forall i :: 0 <= i < |numbers| ==> ys[i] == 0 || ys[i] == 1
  {
    seq(|numbers|, i requires 0 <= i < |numbers| => EncodeLabel(numbers[i]))
  }

  /** `np.array([[n % 2] for n in numbers])`: one single-feature row per number. */
  function ModFeatures(numbers: seq<int>): (xs: seq<seq<int>>)
    ensures |xs| == |numbers|
    ensures forall i :: 0 <= i < |numbers| ==> |xs[i]| == 1 && 0 <= xs[i][0] < 2
    ensures forall i :: 0 <= i < |numbers| ==> (xs[i][0] == 0 <==> RuleBasedClassifier(numbers[i]) == "Even")
  {
    seq(|numbers|, i requires 0 <= i < |numbers| => [ModFeature(numbers[i])])
  }

  /** `["Even" if p == 1 else "Odd" for p in preds]`. */
  function DecodePredictions(preds: seq<int>): (parities: seq<string>)
    ensures |parities| == |preds|
    ensures forall i :: 0 <= i < |preds| ==> (parities[i] == "Even" <==> preds[i] == 1)
    ensures forall i :: 0 <= i < |preds| ==> parities[i] == "Even" || parities[i] == "Odd"
  {
    seq(|preds|, i requires 0 <= i < |preds| => DecodePrediction(preds[i]))
  }

  /** Decoding the training target of n gives the rule-based label of n. */
  lemma DecodeEncode(n: int)
    ensures DecodePrediction(EncodeLabel(n)) == RuleBasedClassifier(n)
  {
  }

  /**
   * A learner that predicts the training targets exactly reproduces the
   * rule-based labels, number by number.
   */
  lemma DecodeEncodeAll(numbers: seq<int>)
    ensures |DecodePredictions(EncodeLabels(numbers))| == |numbers|
    ensures forall i :: 0 <= i < |numbers| ==>
      DecodePredictions(EncodeLabels(numbers))[i] == RuleBasedClassifier(numbers[i])
  {
  }

  /** The parity feature fixes the target: feature 0 goes with target 1, feature 1 with 0. */
  lemma ModFeatureDeterminesLabel(n: int, m: int)
    ensures EncodeLabel(n) == 1 - ModFeature(n)
    ensures ModFeature(n) == ModFeature(m) ==> EncodeLabel(n) == EncodeLabel(m)
  {
  }
}
