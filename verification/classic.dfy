/**
 The program's own run: the default rules (3 gives Fizz, 5 gives Buzz) over
 the numbers 1 to 100, compared with the classic FizzBuzz.
 */
module Classic {
  import opened Rules
  import opened Game

  /** The classic FizzBuzz line for `n`, written directly. */
  function ClassicLine(n: int): Line
  {
    if n % 15 == 0 then Text("FizzBuzz")
    else if n % 3 == 0 then Text("Fizz")
    else if n % 5 == 0 then Text("Buzz")
    else Number(n)
  }

  /** The four cases of the default rules, for every integer. */
  lemma DefaultRuleLines(i: int)
    ensures i % 15 == 0 ==> LineOf(DefaultRules, i) == Text("FizzBuzz")
    ensures i % 3 == 0 && i % 5 != 0 ==> LineOf(DefaultRules, i) == Text("Fizz")
    ensures i % 5 == 0 && i % 3 != 0 ==> LineOf(DefaultRules, i) == Text("Buzz")
    ensures i % 3 != 0 && i % 5 != 0 ==> LineOf(DefaultRules, i) == Number(i)
  {
    DefaultIsClassic(i);
    FifteenIsThreeAndFive(i);
  }

  /** The default rules produce the classic FizzBuzz line for every integer. */
  lemma DefaultIsClassic(i: int)
    ensures LineOf(DefaultRules, i) == ClassicLine(i)
  {
    var fizz, buzz := DefaultRules[0], DefaultRules[1];
    MatchesIffDivides(fizz, i);
    MatchesIffDivides(buzz, i);
    OutputOfTwo(fizz, buzz, i);
    FifteenIsThreeAndFive(i);
  }

  /** Helper: a multiple of 15 is exactly a multiple of both 3 and 5. */
  lemma FifteenIsThreeAndFive(n: int)
    ensures n % 15 == 0 <==> n % 3 == 0 && n % 5 == 0
  {
    var q, r := n / 15, n % 15;
    assert n == 15 * q + r;
    assert n == 3 * (5 * q) + r;
    assert n == 5 * (3 * q) + r;
  }

  /** The top-level script: `new FizzBuzz(rules).execute(1, 100)` with the default rules. */
  method Program() returns (lines: seq<Line>)
    ensures |lines| == 100
    ensures forall k :: 0 <= k < 100 ==> lines[k] == ClassicLine(k + 1)
  {
    var fizzBuzz := FizzBuzz(DefaultRules);
    lines := Execute(fizzBuzz, 1, 100);
    forall k | 0 <= k < 100
      ensures lines[k] == ClassicLine(k + 1)
    {
      DefaultIsClassic(k + 1);
    }
  }
}
