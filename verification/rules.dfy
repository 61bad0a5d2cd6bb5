/**
 A FizzBuzz rule: a divisor `key` and the word `value` it contributes to every
 number it divides.
 */
module Rules {
  import JsNumber

  datatype Rule = Rule(key: int, value: string)

  /**
   Whether `rule` fires for `i`: JavaScript's `i % rule.key === 0`. With a zero
   key the remainder is NaN, and NaN equals nothing, so the rule never fires.
   */
  predicate Matches(rule: Rule, i: int)
  {
    rule.key != 0 && JsNumber.Rem(i, rule.key) == 0
  }

  /** A rule fires exactly when its key is a non-zero divisor of the number. */
  lemma MatchesIffDivides(rule: Rule, i: int)
    ensures Matches(rule, i) <==> rule.key != 0 && i % rule.key == 0
    ensures rule.key == 0 ==> !Matches(rule, i)
  {
    if rule.key != 0 {
      JsNumber.RemZeroIffDivides(i, rule.key);
    }
  }

  /** The rule set the program runs with: 3 gives Fizz, 5 gives Buzz. */
  const DefaultRules: seq<Rule> := [Rule(3, "Fizz"), Rule(5, "Buzz")]
}
