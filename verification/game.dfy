/**
 The generalised FizzBuzz: for every number of a range, the values of the
 rules whose key divides it are appended in rule order, and the line shows
 that string, or the number itself when the string is empty.
 */
module Game {
  import opened Rules

  /** One logged line: the built string, or the number when that string is empty. */
  datatype Line = Text(text: string) | Number(n: int)

  /** A `FizzBuzz` object: the rule list its constructor stores. It is never changed. */
  datatype FizzBuzz = FizzBuzz(rules: seq<Rule>)

  /** What `rule` appends to the string built for `i`. */
  function Contribution(rule: Rule, i: int): string
  {
    if Matches(rule, i) then rule.value else ""
  }

  /** The string the inner loop builds for `i`, one rule after another. */
  function Output(rules: seq<Rule>, i: int): string
  {
    if rules == [] then ""
    else Output(rules[..|rules| - 1], i) + Contribution(rules[|rules| - 1], i)
  }

  /** `output || i`: an empty string is falsy, so the number is shown instead. */
  function LineOf(rules: seq<Rule>, i: int): Line
  {
    var s := Output(rules, i);
    if s == "" then Number(i) else Text(s)
  }

  /**
   The lines for `start..end` inclusive: one per number, in increasing order,
   line `k` being the line of `start + k`, and none for an empty range.
   */
  function Lines(rules: seq<Rule>, start: int, end: int): (ls: seq<Line>)
    ensures |ls| == if start <= end then end - start + 1 else 0
    ensures forall k :: 0 <= k < |ls| ==> ls[k] == LineOf(rules, start + k)
    decreases end - start
  {
    if start > end then [] else [LineOf(rules, start)] + Lines(rules, start + 1, end)
  }

  /** The inner loop over the rule list, building the string for `i`. */
  method ComputeOutput(rules: seq<Rule>, i: int) returns (output: string)
    ensures output == Output(rules, i)
    ensures output == Concat(Contributions(rules, i))
  {
    output := "";
    for j := 0 to |rules|
      invariant output == Output(rules[..j], i)
    {
      assert rules[..j + 1][..j] == rules[..j];
      if Matches(rules[j], i) {
        output := output + rules[j].value;
      }
    }
    assert rules[..|rules|] == rules;
    OutputIsConcat(rules, i);
  }

  /** One pass of the outer loop's body: the string for `i`, or `i` when it is empty. */
  method ComputeLine(rules: seq<Rule>, i: int) returns (line: Line)
    ensures line == LineOf(rules, i)
    ensures line.Number? <==> forall j :: 0 <= j < |rules| && Matches(rules[j], i) ==> rules[j].value == ""
  {
    var output := ComputeOutput(rules, i);
    line := if output == "" then Number(i) else Text(output);
    FallbackToNumber(rules, i);
  }

  /** `execute(start, end)`: the outer loop over the range, one line per number. */
  method Execute(fb: FizzBuzz, start: int, end: int) returns (lines: seq<Line>)
    ensures |lines| == if start <= end then end - start + 1 else 0
    ensures forall k :: 0 <= k < |lines| ==> lines[k] == LineOf(fb.rules, start + k)
  {
    lines := [];
    var i := start;
    while i <= end
      invariant start <= i && (i <= end + 1 || i == start)
      invariant |lines| == i - start
      invariant forall k :: 0 <= k < |lines| ==> lines[k] == LineOf(fb.rules, start + k)
      decreases end - i + 1
    {
      var line := ComputeLine(fb.rules, i);
      lines := lines + [line];
      i := i + 1;
    }
  }

  /** The contributions of all rules to `i`, in rule order. */
  function Contributions(rules: seq<Rule>, i: int): seq<string>
  {
    seq(|rules|, j requires 0 <= j < |rules| => Contribution(rules[j], i))
  }

  /** All strings of `ss` joined in order. */
  function Concat(ss: seq<string>): string
  {
    if ss == [] then "" else ss[0] + Concat(ss[1..])
  }

  lemma {:induction false} ConcatSnoc(ss: seq<string>, s: string)
    ensures Concat(ss + [s]) == Concat(ss) + s
  {
    if ss != [] {
      assert (ss + [s])[1..] == ss[1..] + [s];
      ConcatSnoc(ss[1..], s);
    }
  }

  /**
   The string for `i` is the concatenation, in rule order, of the values of
   exactly the rules that fire for `i`, each other rule adding nothing.
   */
  lemma {:induction false} OutputIsConcat(rules: seq<Rule>, i: int)
    ensures Output(rules, i) == Concat(Contributions(rules, i))
  {
    if rules != [] {
      var init := rules[..|rules| - 1];
      OutputIsConcat(init, i);
      assert Contributions(rules, i) == Contributions(init, i) + [Contribution(rules[|rules| - 1], i)];
      ConcatSnoc(Contributions(init, i), Contribution(rules[|rules| - 1], i));
    }
  }

  /** Running two rule lists one after the other appends their strings. */
  lemma {:induction false} OutputAppend(a: seq<Rule>, b: seq<Rule>, i: int)
    ensures Output(a + b, i) == Output(a, i) + Output(b, i)
  {
    if b == [] {
      assert a + b == a;
    } else {
      var init, last := b[..|b| - 1], b[|b| - 1];
      var ab := a + b;
      assert ab[..|ab| - 1] == a + init;
      assert ab[|ab| - 1] == last;
      assert Output(ab, i) == Output(a + init, i) + Contribution(last, i);
      assert Output(b, i) == Output(init, i) + Contribution(last, i);
      OutputAppend(a, init, i);
    }
  }

  /** A rule that does not fire for `i` can be removed without changing its string. */
  lemma NonMatchingRuleAddsNothing(a: seq<Rule>, r: Rule, b: seq<Rule>, i: int)
    requires !Matches(r, i)
    ensures Output(a + [r] + b, i) == Output(a + b, i)
  {
    assert Output([r], i) == "" by {
      assert [r][..0] == [];
    }
    calc {
      Output(a + [r] + b, i);
      { OutputAppend(a + [r], b, i); }
      Output(a + [r], i) + Output(b, i);
      { OutputAppend(a, [r], i); }
      Output(a, i) + Output([r], i) + Output(b, i);
      Output(a, i) + Output(b, i);
      { OutputAppend(a, b, i); }
      Output(a + b, i);
    }
  }

  /**
   The rule order is the order of the words: wherever two firing rules stand in
   a list, the first one's value comes first, with the strings of the rules
   before, between and after them in their places.
   */
  lemma RuleOrderIsWordOrder(a: seq<Rule>, r1: Rule, b: seq<Rule>, r2: Rule, c: seq<Rule>, i: int)
    requires Matches(r1, i) && Matches(r2, i)
    ensures Output(a + [r1] + b + [r2] + c, i) ==
              Output(a, i) + r1.value + Output(b, i) + r2.value + Output(c, i)
  {
    OutputOfOne(r1, i);
    OutputOfOne(r2, i);
    calc {
      Output(a + [r1] + b + [r2] + c, i);
      { OutputAppend(a + [r1] + b + [r2], c, i); }
      Output(a + [r1] + b + [r2], i) + Output(c, i);
      { OutputAppend(a + [r1] + b, [r2], i); }
      Output(a + [r1] + b, i) + r2.value + Output(c, i);
      { OutputAppend(a + [r1], b, i); }
      Output(a + [r1], i) + Output(b, i) + r2.value + Output(c, i);
      { OutputAppend(a, [r1], i); }
      Output(a, i) + r1.value + Output(b, i) + r2.value + Output(c, i);
    }
  }

  /** Helper: the string of a one-rule list is that rule's contribution. */
  lemma OutputOfOne(r: Rule, i: int)
    ensures Output([r], i) == Contribution(r, i)
  {
    assert [r][..0] == [];
    assert Output([r], i) == Output([], i) + Contribution(r, i);
  }

  /** Helper: the string of a two-rule list, unfolded. */
  lemma OutputOfTwo(r1: Rule, r2: Rule, i: int)
    ensures Output([r1, r2], i) == Contribution(r1, i) + Contribution(r2, i)
  {
    assert [r1, r2][..1] == [r1];
    OutputOfOne(r1, i);
  }

  /** Swapping the default rules turns `FizzBuzz` into `BuzzFizz`. */
  lemma SwappedDefaultRules()
    ensures Output([Rule(5, "Buzz"), Rule(3, "Fizz")], 15) == "BuzzFizz"
    ensures Output(DefaultRules, 15) == "FizzBuzz"
  {
    MatchesIffDivides(Rule(5, "Buzz"), 15);
    MatchesIffDivides(Rule(3, "Fizz"), 15);
    OutputOfTwo(Rule(5, "Buzz"), Rule(3, "Fizz"), 15);
    OutputOfTwo(Rule(3, "Fizz"), Rule(5, "Buzz"), 15);
  }

  /**
   The number is shown exactly when every firing rule has an empty value;
   otherwise the line is the non-empty built string.
   */
  lemma FallbackToNumber(rules: seq<Rule>, i: int)
    ensures LineOf(rules, i) == Number(i) <==>
              forall j :: 0 <= j < |rules| && Matches(rules[j], i) ==> rules[j].value == ""
    ensures LineOf(rules, i).Text? ==> LineOf(rules, i).text == Output(rules, i) != ""
  {
    OutputEmptyIff(rules, i);
  }

  /**
   The built string is empty exactly when every rule that fires has an empty
   value, in particular when no rule fires.
   */
  lemma {:induction false} OutputEmptyIff(rules: seq<Rule>, i: int)
    ensures Output(rules, i) == "" <==>
              forall j :: 0 <= j < |rules| && Matches(rules[j], i) ==> rules[j].value == ""
  {
    if rules != [] {
      var init := rules[..|rules| - 1];
      OutputEmptyIff(init, i);
      assert forall j :: 0 <= j < |init| ==> init[j] == rules[j];
    }
  }

  /** A range splits into two consecutive ranges whose lines are appended. */
  lemma {:induction false} LinesSplit(rules: seq<Rule>, start: int, mid: int, end: int)
    requires start - 1 <= mid <= end
    ensures Lines(rules, start, end) == Lines(rules, start, mid) + Lines(rules, mid + 1, end)
    decreases mid - start
  {
    if mid >= start {
      LinesSplit(rules, start + 1, mid, end);
      assert Lines(rules, start, mid) == [LineOf(rules, start)] + Lines(rules, start + 1, mid);
    }
  }

  /**
   The line of a number does not depend on the range it is printed in: any two
   ranges holding `i` print the same line for it.
   */
  lemma LineIndependentOfRange(rules: seq<Rule>, s1: int, e1: int, s2: int, e2: int, i: int)
    requires s1 <= i <= e1 && s2 <= i <= e2
    ensures Lines(rules, s1, e1)[i - s1] == Lines(rules, s2, e2)[i - s2]
  {
  }

  /**
   Lines come out in increasing order of the number: a line shown as a number
   at position `k` shows `start + k`, so shown numbers strictly increase.
   */
  lemma NumbersAscend(rules: seq<Rule>, start: int, end: int)
    ensures forall k :: 0 <= k < |Lines(rules, start, end)| && Lines(rules, start, end)[k].Number? ==>
              Lines(rules, start, end)[k].n == start + k
    ensures forall k1, k2 ::
              (0 <= k1 < k2 < |Lines(rules, start, end)| &&
               Lines(rules, start, end)[k1].Number? && Lines(rules, start, end)[k2].Number?) ==>
              Lines(rules, start, end)[k1].n < Lines(rules, start, end)[k2].n
  {
  }
}
