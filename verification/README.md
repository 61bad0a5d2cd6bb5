# Generalised FizzBuzz, modelled in Dafny

The repository's one piece of logic is a generalised FizzBuzz in
`firstTestTask.ts`. A `FizzBuzz` object is built from a list of rules. Each
rule is a numeric `key` and a string `value`. `execute(start, end)` walks the
integers from `start` to `end` inclusive. For each one it appends, in rule-list
order, the value of every rule whose key divides the number. It then logs that
string, or the number itself when the string is empty (`output || i`). The
file's top level runs the default rules, 3 giving `Fizz` and 5 giving `Buzz`,
over 1 to 100.

The model has four modules:

- `JsNumber` (`js_number.dfy`): JavaScript's `%` on integers. It truncates
  toward zero, where Dafny's `%` is Euclidean. It is written out as `Rem`,
  together with the fact that both operators give zero for the same inputs.
- `Rules` (`rules.dfy`): the `Rule` datatype, when a rule fires (`Matches`),
  and the default rule set. A zero key never fires: in JavaScript `i % 0` is
  NaN, and NaN equals nothing.
- `Game` (`game.dfy`): the `FizzBuzz` object as an immutable datatype holding
  its rules. Also the logged line, `Line = Text(s) | Number(n)`. Then the
  per-number string (`Output`), the per-number line (`LineOf`) and the lines
  of a range (`Lines`), all as pure functions. The source's two nested loops
  are the methods `ComputeOutput`, `ComputeLine` and `Execute`, proved against those
  functions. Lemmas state the properties.
- `Classic` (`classic.dfy`): the default rules compared with a directly
  written classic FizzBuzz, and the program's own run over 1 to 100.

`execute` never changes the rule list. In the model this holds by
construction: `FizzBuzz` is an immutable value, and every line is computed
from `fb.rules`.

The other file, `secondTestTask.ts`, is commented pseudocode for creating a
container (secondTestTask.ts:1-9), built from stub functions. It is not part
of this model; see "## Left out".

## Model

| member | source | states |
|---|---|---|
| JsNumber.Rem | firstTestTask.ts:18 | JavaScript's `%` on integers is the remainder of division truncated toward zero. It satisfies `a == b * Quot(a, b) + r` with `|r| < |b|`, and takes the sign of the dividend. |
| JsNumber.RemZeroIffDivides | firstTestTask.ts:18 | The JavaScript remainder is zero exactly when Dafny's Euclidean remainder is zero. For a negative dividend the two differ (JavaScript's `-7 % 3` is -1, Dafny's is 2), but they are zero for exactly the same inputs, so `=== 0` is a divisibility test for either sign of number or key. |
| Rules.MatchesIffDivides | firstTestTask.ts:18 | A rule fires for `i` exactly when its key is non-zero and divides `i`. A rule with key 0 never fires (`i % 0` is NaN). |
| Rules.Matches | firstTestTask.ts:18 | `i % rule.key === 0`: a rule fires when its key is non-zero and the remainder truncated toward zero is zero. A zero key never fires, since `i % 0` is NaN. |
| Game.Output | firstTestTask.ts:15-21 | The string the inner loop builds: a left fold over the rules in list order, starting from the empty string and appending each rule's contribution. A rule contributes its value when it fires and nothing otherwise. |
| Game.LineOf | firstTestTask.ts:23 | `output \|\| i`: an empty built string gives `Number(i)`, and a non-empty one gives `Text` of that string. |
| Game.ComputeOutput | firstTestTask.ts:15-21 | The inner loop's string equals the concatenation, in rule order, of each rule's contribution: its value if it fires, the empty string otherwise. |
| Game.OutputIsConcat | firstTestTask.ts:15-21 | The string built for `i`, rule after rule, equals the concatenation over all rules, in list order, of each firing rule's value. Rules that do not fire add nothing. |
| Game.OutputAppend | firstTestTask.ts:17-21 | Concatenating two rule lists concatenates their strings, first list first. The loop is a fold that respects list order. |
| Game.NonMatchingRuleAddsNothing | firstTestTask.ts:18-20 | Removing a rule that does not fire for `i`, from any position, leaves the string for `i` unchanged. |
| Game.RuleOrderIsWordOrder | firstTestTask.ts:17-21 | For any list `a + [r1] + b + [r2] + c` in which `r1` and `r2` both fire, the string is the string of `a`, then `r1`'s value, then the string of `b`, then `r2`'s value, then the string of `c`. Words appear in the order of the rules. |
| Game.SwappedDefaultRules | firstTestTask.ts:17-21 | With the default rules, 15 gives `FizzBuzz`. With the two rules swapped it gives `BuzzFizz`, so rule order changes the output. |
| Game.OutputEmptyIff | firstTestTask.ts:15-21 | The built string is empty exactly when every firing rule has an empty value. This includes the case where no rule fires. |
| Game.FallbackToNumber | firstTestTask.ts:23 | `output \|\| i`: the line is the number `i` exactly when every firing rule's value is empty. Otherwise it is the non-empty built string. |
| Game.Lines | firstTestTask.ts:14 | A range gives `end - start + 1` lines when `start <= end` and none otherwise. Line `k` is the line of `start + k`. |
| Game.ComputeLine | firstTestTask.ts:15-23 | One pass of the outer loop's body gives the number `i` exactly when every rule that fires for `i` has an empty value. Otherwise it gives the built string. |
| Game.Execute | firstTestTask.ts:13-25 | The outer loop emits exactly one line per integer of `[start, end]`, in increasing order. The line at position `k` is the line of `start + k` under the object's rules. |
| Game.LinesSplit | firstTestTask.ts:14 | The lines of a range are the lines of its first part followed by the lines of the rest. |
| Game.LineIndependentOfRange | firstTestTask.ts:14-23 | A number's line depends only on the number and the rules. Any two ranges that contain it show the same line for it. |
| Game.NumbersAscend | firstTestTask.ts:14-23 | A line at position `k` that shows a number shows `start + k`. Numbers shown later are strictly larger. |
| Classic.DefaultIsClassic | firstTestTask.ts:29-32 | For every integer, the default rules (`Rules.DefaultRules`: key 3 with `Fizz`, then key 5 with `Buzz`) give the classic FizzBuzz line. |
| Classic.DefaultRuleLines | firstTestTask.ts:29-32 | Under the default rules, multiples of 15 give `FizzBuzz`. Multiples of 3 but not 5 give `Fizz`. Multiples of 5 but not 3 give `Buzz`. Every other integer gives itself. |
| Classic.Program | firstTestTask.ts:29-35 | The program's run over 1 to 100 gives 100 lines. Line `k` is the classic FizzBuzz line of `k + 1`. |

## Left out

- `console.log` (firstTestTask.ts:23) is I/O. The model returns the lines as a sequence instead of writing them.
- How `console.log` renders a number as decimal text is left out. A `Number(n)` line carries the integer.
- JavaScript `number` semantics are left out. Numbers are Dafny integers, so fractional bounds and keys, `NaN` and `Infinity` keys, and `-0` are not modelled. A negative multiple gives `-0` in JavaScript, which `=== 0` accepts; `Rem` returns 0 there.
- Precision loss above 2^53 is left out. There `i++` stops advancing and the loop would not end.
- The constructor keeps a reference to the caller's array (firstTestTask.ts:9-10). A change made to that array after construction would show in later runs. The model copies the rules as an immutable value.
- All of `secondTestTask.ts` is left out. Every function there is a one-line wrapper around an undeclared system-call stand-in, for example `tar` (secondTestTask.ts:20-23) and `mount` (secondTestTask.ts:137-140). The file's end is a fixed script of those calls (secondTestTask.ts:169-187), repeated at 199-217, and it declares several functions twice. It has no state, ordering checks, rollback or limit validation to model.
