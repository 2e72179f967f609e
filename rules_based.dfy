/** `rule_based_classifier` of src/RulesBased.py: parity by Python's `%`. */
module RulesBased {

  /**
   * "Even" when `number % 2 == 0`, "Odd" otherwise. Python's `%` with
   * divisor 2 gives 0 or 1 for every integer, as Dafny's `%` does, so
   * negative numbers are classified by the same rule.
   */
  function RuleBasedClassifier(number: int): (parity: string)
    ensures parity == "Even" || parity == "Odd"
    ensures parity == "Even" <==> number % 2 == 0
  {
    if number % 2 == 0 then "Even" else "Odd"
  }

  /** Adding 2 never changes the label. */
  lemma SameLabelTwoApart(n: int)
    ensures RuleBasedClassifier(n) == RuleBasedClassifier(n + 2)
  {
  }

  /** Neighbouring integers always get different labels. */
  lemma AdjacentLabelsDiffer(n: int)
    ensures RuleBasedClassifier(n) != RuleBasedClassifier(n + 1)
  {
  }

  /** Negation keeps the label: -4 is "Even", -3 is "Odd". */
  lemma {:induction false} NegationKeepsLabel(n: int)
    ensures RuleBasedClassifier(-n) == RuleBasedClassifier(n)
    ensures RuleBasedClassifier(-4) == "Even" && RuleBasedClassifier(-3) == "Odd"
  {
    assert (-n) % 2 == 0 <==> n % 2 == 0 by {
      assert -n == 2 * (-(n / 2)) - n % 2;
      if n % 2 == 1 {
        assert -n == 2 * (-(n / 2) - 1) + 1;
      }
    }
  }
}
