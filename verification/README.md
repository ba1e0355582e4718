# Equation fuzzer, modelled in Dafny

`equation-fuzzer.cpp` looks for values of up to 26 variables `a`, `b`, … that
make two arithmetic expressions equal, subject to guard conditions. It is a
random search over a growing corpus that accepts only strict improvements.
The corpus starts with the all-zero candidate. Each round:

1. Sample a corpus entry uniformly.
2. Change it in three random steps (add or subtract a nonzero magnitude on a
   random variable, then truncate toward zero in round mode).
3. Drop the candidate unless every condition evaluates to exactly 1.
4. Score the candidate by the absolute difference of the two expressions.
5. Append it to the corpus if this is the first score of the run or it beats
   the best so far.

An accepted difference of zero is a solution. The program prints it as a
`name=value` listing and as a script.

The model has four modules:

- `Candidates` (`candidate.dfy`): a candidate is a value `seq<real>`.
  - Truncation toward zero, a mutation step, and the three-step mutation as a
    function of the draws.
  - The rejection loop's magnitudes (the nonzero draws, in order).
- `Naming` (`naming.dfy`):
  - Variable names.
  - The listing, built by a loop and proved equal to a join of the items.
  - An independent splitter, which shows the listing and the script read
    back into their items and lines.
- `Evaluation` (`evaluation.dfy`):
  - The expression evaluator is a function parameter returning a value or a
    parse error.
  - Condition filtering, and scoring.
- `Fuzzer` (`fuzzer.dfy`):
  - The acceptance rule and the outcome of one round (`Judge`).
  - The record of a run (`Run`): the outcome and candidate of each round so
    far.
  - The class `EquationFuzzer`. Its fields are the constants of the source
    (`n`, `round`, `conditions`, `expr1`, `expr2`, the evaluator) and its
    state: `iter` and `corpus`.
  - Its methods follow the source's private members, one round (`Step`),
    and the search loop (`Fuzz`).
  - The best difference is a local of `Fuzz`, as in the source. It is
    absent when a run starts, and `Step` receives it as a parameter.

The random engine is not state in the model. Each round is given the draws it
consumes:

- `sizes` stands for the integer distribution. `sizes[0]` samples the corpus;
  `sizes[1 + 2j]` and `sizes[2 + 2j]` choose the variable and the operation of
  step `j`.
- `reals` stands for the real distribution. The rejection loop skips its
  zeros.

The class invariant `Valid()` is kept by every round. It states:

- The corpus is the zero seed followed by candidates that pass every
  condition and are scored: both expressions evaluate on them.
- In round mode every entry is integral.
- `iter` is at least the number of acceptances.

`Valid()` does not say that these entries were accepted. That link is made by
`Run`, for one call of `Fuzz`. `Fuzz` returns, as ghost results, the outcome
and candidate of every round it ran. Its contract ties them to the corpus,
to the counter and to the way the run ended. `Run` says the corpus grew by
exactly the candidates of the accepted rounds.
Each round's candidate is the mutation of the corpus as the earlier
acceptances left it. Each round is judged against the best difference of the
run so far. Lemmas over that record show two things:

- The accepted differences strictly decrease.
- Once a round is solved, no later round could be accepted.

## Model

| member | source | states |
|---|---|---|
| Candidates.Zeros | equation-fuzzer.cpp:159-160 | the seed candidate has n numbers, all zero |
| Candidates.Trunc | equation-fuzzer.cpp:134-137 | x minus its signed fractional part is integral, lies between 0 and x, and is less than 1 away from x |
| Candidates.TruncOfIntegral | equation-fuzzer.cpp:134-137 | truncation leaves an integral number unchanged |
| Candidates.Perturb | equation-fuzzer.cpp:121-137 | in round mode a step's result is integral and within 1 of the moved value; otherwise a nonzero magnitude always changes the number |
| Candidates.ApplyStep | equation-fuzzer.cpp:116-137 | one step keeps the length, sets the selected number to its perturbed value and leaves every other number unchanged |
| Candidates.ApplySteps | equation-fuzzer.cpp:114-138 | applying the steps in order keeps the candidate's length |
| Candidates.UntouchedUnchanged | equation-fuzzer.cpp:114-138 | a number that no step selects keeps its value |
| Candidates.RoundedIntegral | equation-fuzzer.cpp:134-137 | in round mode a number ends integral if it started integral or some step selected it |
| Candidates.RoundedKeepsIntegral | equation-fuzzer.cpp:134-137 | round mode maps an integral candidate to an integral candidate |
| Candidates.Nonzeros | equation-fuzzer.cpp:33-42 | the magnitudes the rejection loop yields are all nonzero and no more than the draws |
| Candidates.FirstNonzero | equation-fuzzer.cpp:33-42 | after zero draws the first nonzero draw is the next magnitude, and the rest come from the later draws |
| Candidates.NextMagnitude | equation-fuzzer.cpp:33-42 | one run of the rejection loop consumes exactly the next magnitude and leaves the following ones |
| Candidates.DrawStep | equation-fuzzer.cpp:116-119 | the selected variable (draw modulo n) is always in bounds |
| Candidates.DrawSteps | equation-fuzzer.cpp:114-132 | a mutation is exactly three steps, each in bounds |
| Candidates.MutationFrame | equation-fuzzer.cpp:110-142 | a mutation keeps the length, moves by nonzero magnitudes, leaves every variable no step selects unchanged, and in round mode keeps an integral base integral |
| Naming.VarName | equation-fuzzer.cpp:72-79 | variable i is named by the single letter 'a' + i |
| Naming.NamesDistinct | equation-fuzzer.cpp:72-79 | different positions get different names |
| Naming.Items | equation-fuzzer.cpp:84-85 | one `name=value` item per variable, in order |
| Naming.JoinSnoc | equation-fuzzer.cpp:84-89 | adding an item at the end adds exactly one separator before it |
| Naming.JoinPrefix | equation-fuzzer.cpp:84-89 | after item i the output is the first item alone when i is 0, and otherwise the output before it, one separator and the item |
| Naming.SplitAfterPlain | equation-fuzzer.cpp:86-88 | text free of the separator, then the separator, then more text, reads back as that text followed by the pieces of the rest |
| Naming.SplitJoin | equation-fuzzer.cpp:81-92 | cutting a one-character-separated listing at the separator gives back the items, when no item contains it |
| Naming.Format | equation-fuzzer.cpp:81-92 | the loop's output is the items joined with the separator between each two and none after the last |
| Naming.ItemsSingleLine | equation-fuzzer.cpp:84-85 | no item spans lines when no rendered value does |
| Naming.Script | equation-fuzzer.cpp:94-101 | the script begins with the newline-separated listing, is longer than it and ends with a newline |
| Naming.ScriptLines | equation-fuzzer.cpp:94-101 | the script's lines are the assignments in order, then `expr1 == expr2`, then the empty rest after the final newline |
| Evaluation.CheckFrom | equation-fuzzer.cpp:172-179 | a failure found from condition i onwards names a condition at i or later that exists |
| Evaluation.CheckConditions | equation-fuzzer.cpp:169-184 | a candidate passes iff every condition evaluates to exactly 1; a value failure names a condition whose value is not 1, and every earlier condition is 1 |
| Evaluation.CheckFromMeaning | equation-fuzzer.cpp:169-184 | a candidate passes iff every condition evaluates to exactly 1; a failure names the first condition that is not 1 or does not compile, and every earlier condition is 1 |
| Evaluation.Distance | equation-fuzzer.cpp:107 | the score is non-negative, is one of the two differences, and is zero exactly when the results are equal |
| Evaluation.Score | equation-fuzzer.cpp:103-108 | scored iff both expressions compile; the results are theirs and the difference is their distance; a malformed first expression is reported before the second |
| Fuzzer.Improves | equation-fuzzer.cpp:189-190 | the first score of a run is always accepted; a score at or above the best is never accepted |
| Fuzzer.AcceptKeepsDecreasing | equation-fuzzer.cpp:189-192 | accepting by the rule keeps the accepted differences strictly decreasing and makes the new one the best |
| Fuzzer.Judge | equation-fuzzer.cpp:166-201 | accepted iff all conditions pass, both expressions compile and the rule holds; accepted below the best; rejected at or above it; filtered iff a condition fails, naming the first condition that is not 1; scored iff the conditions pass and both expressions compile, and then the difference is the score's; an abort carries the evaluator's first error; a solution makes both expressions equal |
| Fuzzer.SolvedMeans | equation-fuzzer.cpp:187-201 | a solved round's candidate passes every condition and makes both expressions evaluate to the same value |
| Fuzzer.FailingConditionNeverScored | equation-fuzzer.cpp:169-184 | a candidate on which some condition is a value other than 1 is never scored |
| Fuzzer.AcceptedSnoc | equation-fuzzer.cpp:189-192 | a round adds its difference and candidate to the accepted ones exactly when it is accepted |
| Fuzzer.JudgedDecreasing | equation-fuzzer.cpp:164-192 | in a run judged round by round against the best so far, the accepted differences strictly decrease |
| Fuzzer.NothingAfterSolution | equation-fuzzer.cpp:189-216 | after a solved round the best difference stays zero and no later round could be accepted |
| Fuzzer.EquationFuzzer.Record | equation-fuzzer.cpp:189-192 | appending a passing, scored candidate of the right shape keeps the corpus invariant |
| Fuzzer.EquationFuzzer.RunExtends | equation-fuzzer.cpp:166-192 | one more round, mutated from the current corpus and judged against the current best, extends the record of the run, with the corpus grown exactly on acceptance |
| Fuzzer.EquationFuzzer.constructor | equation-fuzzer.cpp:150-161 | the fields are the arguments, the corpus is the one all-zero candidate and the counter is zero |
| Fuzzer.EquationFuzzer.GetRandomDouble | equation-fuzzer.cpp:33-42 | the loop returns the first nonzero draw; every draw before it was zero |
| Fuzzer.EquationFuzzer.GetStatic | equation-fuzzer.cpp:144-147 | the sample is the corpus entry at the draw modulo the corpus size, always in bounds |
| Fuzzer.EquationFuzzer.Mutation | equation-fuzzer.cpp:110-142 | a mutation of a corpus entry has n numbers |
| Fuzzer.EquationFuzzer.Mutate | equation-fuzzer.cpp:110-142 | the in-place loop gives the sampled entry with the three drawn steps applied, and consumes exactly three magnitudes |
| Fuzzer.EquationFuzzer.TestConditions | equation-fuzzer.cpp:169-184 | the loop's verdict is the first-failure verdict of the conditions |
| Fuzzer.EquationFuzzer.NumStructToDiff | equation-fuzzer.cpp:103-108 | the result is the score, and the counter goes up by one exactly when the candidate is scored |
| Fuzzer.EquationFuzzer.Step | equation-fuzzer.cpp:166-201 | one round keeps the invariant; the candidate is the mutation of the corpus and is judged against the given best; acceptance appends it and anything else leaves the corpus unchanged; the counter moves iff the candidate was scored |
| Fuzzer.EquationFuzzer.Fuzz | equation-fuzzer.cpp:163-220 | every round's candidate is the mutation of the corpus as earlier acceptances left it and is judged against the best so far; the corpus grows by exactly the accepted candidates; the counter grows by the number of rounds that reached scoring; no round before the last is solved or aborted; running out of rounds means all ran and none was; a stop ends on the abort with its error; a solution ends on the solved round, is the last corpus entry, passes every condition and makes both expressions equal |

## Left out

- The expression library is not part of this model. `calc` compiles an
  expression with the variables and the built-in constants bound and
  evaluates it. Here it is the evaluator parameter `eval`, which returns a
  value or a parse error.
- Printing the parse error and calling `exit(1)` is modelled as an `Aborted`
  outcome. That outcome ends `Fuzz` and leaves the corpus as it was.
- Floating point is not modelled: numbers are exact reals. Left out with it:
  - rounding in `+=`, `-=` and `abs`;
  - NaN and the infinities;
  - that `1.0f` and `0.0f` are single-precision literals. Both are exact in
    double, so the comparisons are modelled as exact comparisons with 1
    and 0.
- With NaN, the source can accept a NaN difference as the first score. After
  that no difference compares below it, so nothing more is accepted. The
  model cannot express this.
- How a double is rendered by the output stream is a parameter `show`.
- The random engine and its distributions are replaced by the draws passed
  to each round. Nothing about the draws is assumed beyond there being
  enough of them. In particular the real range [-100, 100) is not enforced.
- Fuzz: the unbounded `while (true)` is bounded by the list of rounds given.
  When the rounds run out, the result is `OutOfRounds`. A run that never
  finds a solution is not modelled.
- Everything printed (the progress line on each acceptance and the solution
  report) is left out. The script text is modelled (`Script`,
  `ScriptLines`), but printing it is not.
- The command-line entry point `main` is left out. It builds the condition
  list from the arguments and fixes six variables. It also relies on the
  constructor's default `round = true`. The model takes any 1 ≤ n ≤ 26 and
  an explicit `round` instead.
- The listing's default separator `","` is used only by the printed
  progress line and the printed solution. `Format` takes the separator as an
  argument and has no default.
- `size_t` width is not modelled. Draws are unbounded naturals, and `iter`
  cannot overflow.
- The fixed-size `NumStruct` array is a value sequence of length n. The
  mutation's copy and its in-place updates become sequence updates on a
  local copy. Nothing else aliases it.
- Mutation: its contract only gives the length. What a mutation does is
  stated by `Mutate` and `MutationFrame`.
