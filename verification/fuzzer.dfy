/** The search engine: a corpus of accepted candidates and a counter of
    scored candidates, advanced one round at a time. The best difference
    seen so far is local to one search and is handed to each round. The random engine is not part of the state: each round is given
    the draws it consumes, `sizes` for the integer distribution and `reals`
    for the real distribution over [-100, 100). */
module Fuzzer {
  import opened Candidates
  import opened Evaluation

  /** The acceptance rule: there is no best difference yet, or the new one
      is strictly smaller. */
  predicate Improves(best: Option<real>, d: real): (r: bool)
    ensures best.None? ==> r
    ensures best.Some? && best.value <= d ==> !r
  {
    best.None? || d < best.value
  }

  /** Each accepted difference is below every one accepted before it. */
  predicate StrictlyDecreasing(h: seq<real>) {
    forall i, j :: 0 <= i < j < |h| ==> h[j] < h[i]
  }

  /** The best difference as the history of accepted differences gives it:
      absent before the first acceptance, the latest one after. */
  function Best(h: seq<real>): Option<real> {
    if h == [] then None else Some(h[|h| - 1])
  }

  /** Accepting by the rule keeps the accepted differences strictly
      decreasing, and the accepted difference becomes the best. */
  lemma AcceptKeepsDecreasing(h: seq<real>, d: real)
    requires StrictlyDecreasing(h) && Improves(Best(h), d)
    ensures StrictlyDecreasing(h + [d]) && Best(h + [d]) == Some(d)
  {
    var h' := h + [d];
    forall i, j | 0 <= i < j < |h'|
      ensures h'[j] < h'[i]
    {
      if j == |h| && i < |h| - 1 {
        assert h[|h| - 1] < h[i];
      }
    }
  }

  /** What one round did. */
  datatype Outcome =
    | Filtered(index: nat)
    | Rejected(diff: real)
    | Accepted(diff: real)
    | Aborted(error: ConfigError)
  {
    /** An acceptance with difference zero ends the search. */
    predicate Solved() {
      Accepted? && diff == 0.0
    }

    /** The round ends the run: a solution, or a malformed expression. */
    predicate Final() {
      Solved() || Aborted?
    }

    /** The round reached the scoring stage, which counts an iteration. */
    predicate Counted() {
      Rejected? || Accepted?
    }
  }

  /** The round's outcome for candidate c, given the best difference so far:
      filtered out by the first condition that is not 1, aborted by a
      malformed expression, else scored and accepted or rejected by the
      acceptance rule. */
  function Judge(eval: Evaluator, conditions: seq<string>, expr1: string, expr2: string,
                 best: Option<real>, c: Candidate): (o: Outcome)
    ensures o.Accepted? <==>
      && CheckConditions(eval, conditions, c) == Satisfied
      && Score(eval, expr1, expr2, c).Scored?
      && Improves(best, Score(eval, expr1, expr2, c).diff)
    ensures o.Accepted? ==> 0.0 <= o.diff && (best.Some? ==> o.diff < best.value)
    ensures o.Rejected? ==> best.Some? && best.value <= o.diff
    ensures o.Filtered? <==> CheckConditions(eval, conditions, c).Violated?
    ensures o.Filtered? ==> o.index == CheckConditions(eval, conditions, c).index
    ensures o.Counted() <==>
      CheckConditions(eval, conditions, c) == Satisfied && Score(eval, expr1, expr2, c).Scored?
    ensures o.Counted() ==> o.diff == Score(eval, expr1, expr2, c).diff
    ensures o.Aborted? ==>
      (o.error == if CheckConditions(eval, conditions, c).ConditionError? then CheckConditions(eval, conditions, c).error
                  else Score(eval, expr1, expr2, c).error)
    ensures o.Solved() ==> eval(expr1, c).Value? && eval(expr1, c) == eval(expr2, c)
  {
    match CheckConditions(eval, conditions, c)
    case Violated(i) => Filtered(i)
    case ConditionError(e) => Aborted(e)
    case Satisfied =>
      match Score(eval, expr1, expr2, c)
      case ExpressionError(e) => Aborted(e)
      case Scored(_, _, d) => if Improves(best, d) then Accepted(d) else Rejected(d)
  }

  /** A solved round's candidate passes every condition and makes the two
      expressions evaluate to the same value. */
  lemma SolvedMeans(eval: Evaluator, conditions: seq<string>, expr1: string, expr2: string,
                    best: Option<real>, c: Candidate)
    requires Judge(eval, conditions, expr1, expr2, best, c).Solved()
    ensures CheckConditions(eval, conditions, c) == Satisfied
    ensures eval(expr1, c).Value? && eval(expr1, c) == eval(expr2, c)
  {
  }

  /** A candidate on which some condition evaluates to a value other than 1
      is never scored: it is filtered out, or the search aborts on a
      malformed condition before it. */
  lemma FailingConditionNeverScored(eval: Evaluator, conditions: seq<string>, expr1: string,
                                    expr2: string, best: Option<real>, c: Candidate, k: nat)
    requires k < |conditions| && eval(conditions[k], c).Value? && eval(conditions[k], c).v != 1.0
    ensures !Judge(eval, conditions, expr1, expr2, best, c).Counted()
  {
    CheckFromMeaning(eval, conditions, c, 0);
  }

  /** The draws one round consumes. */
  datatype Draws = Draws(sizes: seq<nat>, reals: seq<real>)

  /** Enough draws for a round: one to sample, two per mutation step, and
      three nonzero reals for the magnitudes. */
  predicate Enough(d: Draws) {
    7 <= |d.sizes| && 3 <= |Nonzeros(d.reals)|
  }

  /** The differences of the accepted rounds of a run, in order. */
  function AcceptedDiffs(outcomes: seq<Outcome>): seq<real>
    decreases |outcomes|
  {
    if outcomes == [] then []
    else
      var last := outcomes[|outcomes| - 1];
      AcceptedDiffs(outcomes[..|outcomes| - 1]) + (if last.Accepted? then [last.diff] else [])
  }

  /** The candidates of the accepted rounds of a run, in order. */
  function AcceptedCandidates(outcomes: seq<Outcome>, candidates: seq<Candidate>): seq<Candidate>
    requires |outcomes| == |candidates|
    decreases |outcomes|
  {
    if outcomes == [] then []
    else
      var last := |outcomes| - 1;
      AcceptedCandidates(outcomes[..last], candidates[..last])
        + (if outcomes[last].Accepted? then [candidates[last]] else [])
  }

  /** The number of rounds of a run that reached the scoring stage. */
  function CountedRounds(outcomes: seq<Outcome>): (k: nat)
    ensures k <= |outcomes|
    decreases |outcomes|
  {
    if outcomes == [] then 0
    else
      var last := outcomes[|outcomes| - 1];
      CountedRounds(outcomes[..|outcomes| - 1]) + (if last.Counted() then 1 else 0)
  }

  lemma CountedSnoc(outcomes: seq<Outcome>, o: Outcome)
    ensures CountedRounds(outcomes + [o]) == CountedRounds(outcomes) + (if o.Counted() then 1 else 0)
  {
    assert (outcomes + [o])[..|outcomes|] == outcomes;
  }

  lemma AcceptedSnoc(outcomes: seq<Outcome>, candidates: seq<Candidate>, o: Outcome, c: Candidate)
    requires |outcomes| == |candidates|
    ensures o.Accepted? ==> AcceptedDiffs(outcomes + [o]) == AcceptedDiffs(outcomes) + [o.diff]
    ensures o.Accepted? ==>
      AcceptedCandidates(outcomes + [o], candidates + [c]) == AcceptedCandidates(outcomes, candidates) + [c]
    ensures !o.Accepted? ==> AcceptedDiffs(outcomes + [o]) == AcceptedDiffs(outcomes)
    ensures !o.Accepted? ==>
      AcceptedCandidates(outcomes + [o], candidates + [c]) == AcceptedCandidates(outcomes, candidates)
  {
    assert (outcomes + [o])[..|outcomes|] == outcomes;
    assert (candidates + [c])[..|candidates|] == candidates;
    assert AcceptedDiffs(outcomes) + [] == AcceptedDiffs(outcomes);
    assert AcceptedCandidates(outcomes, candidates) + [] == AcceptedCandidates(outcomes, candidates);
  }

  /** A run judged round by round: each round's outcome is the verdict on its
      candidate, given the best difference accepted earlier in the run. */
  predicate JudgedInTurn(eval: Evaluator, conditions: seq<string>, expr1: string, expr2: string,
                         outcomes: seq<Outcome>, candidates: seq<Candidate>)
  {
    && |outcomes| == |candidates|
    && forall i :: 0 <= i < |outcomes| ==> JudgedAt(eval, conditions, expr1, expr2, outcomes, candidates, i)
  }

  /** Round i of a run is judged against the best of the rounds before it. */
  predicate JudgedAt(eval: Evaluator, conditions: seq<string>, expr1: string, expr2: string,
                     outcomes: seq<Outcome>, candidates: seq<Candidate>, i: nat)
    requires i < |outcomes| == |candidates|
  {
    outcomes[i] == Judge(eval, conditions, expr1, expr2, Best(AcceptedDiffs(outcomes[..i])), candidates[i])
  }

  /** One more round judged against the best of the run so far. */
  lemma JudgedSnoc(eval: Evaluator, conditions: seq<string>, expr1: string, expr2: string,
                   outcomes: seq<Outcome>, candidates: seq<Candidate>, o: Outcome, c: Candidate)
    requires JudgedInTurn(eval, conditions, expr1, expr2, outcomes, candidates)
    requires o == Judge(eval, conditions, expr1, expr2, Best(AcceptedDiffs(outcomes)), c)
    ensures JudgedInTurn(eval, conditions, expr1, expr2, outcomes + [o], candidates + [c])
  {
    var outcomes', candidates' := outcomes + [o], candidates + [c];
    forall i | 0 <= i < |outcomes'|
      ensures JudgedAt(eval, conditions, expr1, expr2, outcomes', candidates', i)
    {
      if i < |outcomes| {
        assert JudgedAt(eval, conditions, expr1, expr2, outcomes, candidates, i);
        assert outcomes'[..i] == outcomes[..i];
      } else {
        assert outcomes'[..i] == outcomes;
      }
    }
  }

  /** In a run judged in turn the accepted differences strictly decrease:
      the best only ever improves. */
  lemma {:induction false} JudgedDecreasing(eval: Evaluator, conditions: seq<string>, expr1: string,
                                            expr2: string, outcomes: seq<Outcome>, candidates: seq<Candidate>)
    requires JudgedInTurn(eval, conditions, expr1, expr2, outcomes, candidates)
    ensures StrictlyDecreasing(AcceptedDiffs(outcomes))
  {
    if outcomes != [] {
      var last := |outcomes| - 1;
      var prefix, cs := outcomes[..last], candidates[..last];
      forall i | 0 <= i < |prefix|
        ensures JudgedAt(eval, conditions, expr1, expr2, prefix, cs, i)
      {
        assert JudgedAt(eval, conditions, expr1, expr2, outcomes, candidates, i);
        assert prefix[..i] == outcomes[..i];
      }
      JudgedDecreasing(eval, conditions, expr1, expr2, prefix, cs);
      assert outcomes[..last] == prefix;
      assert JudgedAt(eval, conditions, expr1, expr2, outcomes, candidates, last);
      if outcomes[last].Accepted? {
        AcceptKeepsDecreasing(AcceptedDiffs(prefix), outcomes[last].diff);
      }
    }
  }

  /** Once a round of a run judged in turn is solved, the best stays zero
      and no later round is accepted: stopping at a solution loses no
      acceptance. */
  lemma {:induction false} NothingAfterSolution(eval: Evaluator, conditions: seq<string>, expr1: string,
                                                expr2: string, outcomes: seq<Outcome>,
                                                candidates: seq<Candidate>, i: nat, j: nat)
    requires JudgedInTurn(eval, conditions, expr1, expr2, outcomes, candidates)
    requires i < j <= |outcomes| && outcomes[i].Solved()
    ensures Best(AcceptedDiffs(outcomes[..j])) == Some(0.0)
    ensures j < |outcomes| ==> !outcomes[j].Accepted?
  {
    var prev := j - 1;
    assert JudgedAt(eval, conditions, expr1, expr2, outcomes, candidates, prev);
    if j < |outcomes| {
      assert JudgedAt(eval, conditions, expr1, expr2, outcomes, candidates, j);
    }
    assert outcomes[..j] == outcomes[..prev] + [outcomes[prev]];
    AcceptedSnoc(outcomes[..prev], candidates[..prev], outcomes[prev], candidates[prev]);
    if prev > i {
      NothingAfterSolution(eval, conditions, expr1, expr2, outcomes, candidates, i, prev);
    }
  }

  /** No round of the run so far has ended it. */
  predicate Ongoing(outcomes: seq<Outcome>) {
    forall i :: 0 <= i < |outcomes| ==> !outcomes[i].Final()
  }

  lemma OngoingSnoc(outcomes: seq<Outcome>, o: Outcome)
    requires Ongoing(outcomes)
    ensures forall i :: 0 <= i < |outcomes + [o]| - 1 ==> !(outcomes + [o])[i].Final()
    ensures !o.Final() ==> Ongoing(outcomes + [o])
  {
  }

  /** How a bounded run ended. */
  datatype Finish = Solution(c: Candidate) | Stopped(error: ConfigError) | OutOfRounds

  class EquationFuzzer {
    const n: nat
    const round: bool
    const conditions: seq<string>
    const expr1: string
    const expr2: string
    const eval: Evaluator

    var iter: nat
    var corpus: seq<Candidate>

    /** What sampling and mutation rely on: a non-empty list of candidates
        with n numbers each, n positive. */
    ghost predicate Shaped(entries: seq<Candidate>) {
      && 0 < n
      && entries != []
      && (forall k :: 0 <= k < |entries| ==> |entries[k]| == n)
    }

    /** What the corpus records: the all-zero seed first, then the accepted
        candidates, each passing every condition and scored, all integral in
        round mode. */
    ghost predicate Recorded(entries: seq<Candidate>) {
      && n <= 26
      && Shaped(entries)
      && entries[0] == Zeros(n)
      && (round ==> forall k :: 0 <= k < |entries| ==> AllIntegral(entries[k]))
      && (forall k :: 1 <= k < |entries| ==> Admissible(entries[k]))
    }

    /** A candidate the search could have accepted: it passes every
        condition and both expressions evaluate on it. */
    ghost predicate Admissible(c: Candidate) {
      CheckConditions(eval, conditions, c) == Satisfied && Score(eval, expr1, expr2, c).Scored?
    }

    /** The corpus is as recorded, and every entry but the seed was counted
        when it was scored. */
    ghost predicate Valid()
      reads this
    {
      Recorded(corpus) && |corpus| - 1 <= iter
    }

    /** Appending a candidate that passes every condition, is scored and is
        integral in round mode keeps the record. */
    lemma Record(entries: seq<Candidate>, c: Candidate)
      requires Recorded(entries)
      requires |c| == n && (round ==> AllIntegral(c))
      requires CheckConditions(eval, conditions, c) == Satisfied
      requires Score(eval, expr1, expr2, c).Scored?
      ensures Recorded(entries + [c])
    {
      var entries' := entries + [c];
      forall k | 1 <= k < |entries'|
        ensures Admissible(entries'[k])
      {
        if k < |entries| {
          assert entries'[k] == entries[k];
        }
      }
    }

    /** A run in which each round's candidate is the mutation, by that
        round's draws, of the corpus as the earlier acceptances left it. */
    ghost predicate MutatedInTurn(rounds: seq<Draws>, start: seq<Candidate>, outcomes: seq<Outcome>,
                                  candidates: seq<Candidate>)
    {
      && |outcomes| == |candidates| <= |rounds|
      && forall i :: 0 <= i < |outcomes| ==> MutatedAt(rounds, start, outcomes, candidates, i)
    }

    /** Round i's candidate is the mutation, by round i's draws, of the
        corpus after the acceptances before it. */
    ghost predicate MutatedAt(rounds: seq<Draws>, start: seq<Candidate>, outcomes: seq<Outcome>,
                              candidates: seq<Candidate>, i: nat)
      requires i < |outcomes| == |candidates| <= |rounds|
    {
      var entries := start + AcceptedCandidates(outcomes[..i], candidates[..i]);
      && Shaped(entries)
      && Enough(rounds[i])
      && candidates[i] == Mutation(entries, rounds[i].sizes, rounds[i].reals)
    }

    /** One more round whose candidate mutates the current corpus. */
    lemma MutatedSnoc(rounds: seq<Draws>, start: seq<Candidate>, outcomes: seq<Outcome>,
                      candidates: seq<Candidate>, o: Outcome, c: Candidate)
      requires MutatedInTurn(rounds, start, outcomes, candidates) && |outcomes| < |rounds|
      requires Shaped(start + AcceptedCandidates(outcomes, candidates)) && Enough(rounds[|outcomes|])
      requires c == Mutation(start + AcceptedCandidates(outcomes, candidates),
                             rounds[|outcomes|].sizes, rounds[|outcomes|].reals)
      ensures MutatedInTurn(rounds, start, outcomes + [o], candidates + [c])
    {
      var outcomes', candidates' := outcomes + [o], candidates + [c];
      forall i | 0 <= i < |outcomes'|
        ensures MutatedAt(rounds, start, outcomes', candidates', i)
      {
        if i < |outcomes| {
          assert MutatedAt(rounds, start, outcomes, candidates, i);
          assert outcomes'[..i] == outcomes[..i] && candidates'[..i] == candidates[..i];
        } else {
          assert outcomes'[..i] == outcomes && candidates'[..i] == candidates;
        }
      }
    }

    /** A run so far: starting from the corpus start, its rounds were
        mutated and judged in turn, the corpus is start followed by the
        accepted candidates, and best is the last accepted difference. */
    ghost predicate Run(rounds: seq<Draws>, start: seq<Candidate>, entries: seq<Candidate>,
                        outcomes: seq<Outcome>, candidates: seq<Candidate>, best: Option<real>)
    {
      && JudgedInTurn(eval, conditions, expr1, expr2, outcomes, candidates)
      && MutatedInTurn(rounds, start, outcomes, candidates)
      && entries == start + AcceptedCandidates(outcomes, candidates)
      && best == Best(AcceptedDiffs(outcomes))
    }

    /** A round that mutates the current corpus by its draws, is judged
        against the best so far, and appends its candidate exactly when it is
        accepted extends the run; an acceptance makes its difference the
        best. */
    lemma RunExtends(rounds: seq<Draws>, start: seq<Candidate>, entries: seq<Candidate>,
                     outcomes: seq<Outcome>, candidates: seq<Candidate>, best: Option<real>,
                     c: Candidate, o: Outcome, entries': seq<Candidate>)
      requires Run(rounds, start, entries, outcomes, candidates, best) && |outcomes| < |rounds|
      requires Shaped(entries) && Enough(rounds[|outcomes|])
      requires c == Mutation(entries, rounds[|outcomes|].sizes, rounds[|outcomes|].reals)
      requires o == Judge(eval, conditions, expr1, expr2, best, c)
      requires entries' == if o.Accepted? then entries + [c] else entries
      ensures Run(rounds, start, entries', outcomes + [o], candidates + [c],
                  if o.Accepted? then Some(o.diff) else best)
    {
      JudgedSnoc(eval, conditions, expr1, expr2, outcomes, candidates, o, c);
      MutatedSnoc(rounds, start, outcomes, candidates, o, c);
      AcceptedSnoc(outcomes, candidates, o, c);
      if o.Accepted? {
        assert entries' == start + AcceptedCandidates(outcomes + [o], candidates + [c]);
        assert Best(AcceptedDiffs(outcomes + [o])) == Some(o.diff);
      } else {
        assert entries' == start + AcceptedCandidates(outcomes + [o], candidates + [c]);
      }
    }

    /** The fuzzer for n variables; the corpus starts with one all-zero
        candidate. */
    constructor (n: nat, expr1: string, expr2: string, conditions: seq<string>, round: bool,
                 eval: Evaluator)
      requires 1 <= n <= 26
      ensures Valid()
      ensures this.n == n && this.expr1 == expr1 && this.expr2 == expr2
      ensures this.conditions == conditions && this.round == round && this.eval == eval
      ensures corpus == [Zeros(n)] && iter == 0
    {
      this.n := n;
      this.round := round;
      this.conditions := conditions;
      this.expr1 := expr1;
      this.expr2 := expr2;
      this.eval := eval;
      iter := 0;
      corpus := [Zeros(n)];
    }

    /** The rejection loop: draws until one is nonzero and returns it, with
        the number of draws it used. */
    static method GetRandomDouble(draws: seq<real>) returns (r: real, used: nat)
      requires exists i :: 0 <= i < |draws| && draws[i] != 0.0
      ensures 0 < used <= |draws| && r == draws[used - 1]
      ensures r != 0.0
      ensures forall i :: 0 <= i < used - 1 ==> draws[i] == 0.0
    {
      r := 0.0;
      used := 0;
      while r == 0.0
        invariant used <= |draws|
        invariant r == 0.0 ==> forall i :: 0 <= i < used ==> draws[i] == 0.0
        invariant r != 0.0 ==> 0 < used && r == draws[used - 1]
        invariant r != 0.0 ==> forall i :: 0 <= i < used - 1 ==> draws[i] == 0.0
        decreases |draws| - used
      {
        r := draws[used];
        used := used + 1;
      }
    }

    /** A uniformly drawn corpus entry: the index is the draw modulo the
        corpus size, always in bounds because the corpus is never empty. */
    method GetStatic(draw: nat) returns (c: Candidate)
      requires Shaped(corpus)
      ensures c == corpus[draw % |corpus|]
      ensures c in corpus && |c| == n
    {
      c := corpus[draw % |corpus|];
    }

    /** The candidate a round mutates: the sampled entry with the three
        drawn steps applied. */
    function Mutation(entries: seq<Candidate>, sizes: seq<nat>, reals: seq<real>): (c: Candidate)
      requires Shaped(entries) && 7 <= |sizes| && 3 <= |Nonzeros(reals)|
      ensures |c| == n
    {
      ApplySteps(entries[sizes[0] % |entries|], DrawSteps(n, sizes[1..], Nonzeros(reals)), round)
    }

    /** A copy of a sampled entry, changed by three steps in place; each step
        picks a variable and an operation, draws a nonzero magnitude, and in
        round mode truncates the changed number toward zero. */
    method Mutate(sizes: seq<nat>, reals: seq<real>) returns (c: Candidate, used: nat)
      requires Shaped(corpus) && 7 <= |sizes| && 3 <= |Nonzeros(reals)|
      ensures c == Mutation(corpus, sizes, reals)
      ensures used <= |reals| && Nonzeros(reals[used..]) == Nonzeros(reals)[3..]
    {
      c := GetStatic(sizes[0]);
      ghost var base := c;
      ghost var magnitudes := Nonzeros(reals);
      ghost var steps := DrawSteps(n, sizes[1..], magnitudes);
      used := 0;
      for j := 0 to 3
        invariant |c| == n
        invariant used <= |reals|
        invariant Nonzeros(reals[used..]) == magnitudes[j..]
        invariant c == ApplySteps(base, steps[..j], round)
      {
        var whichNum := sizes[1 + 2 * j] % n;
        var whichMutator := sizes[2 + 2 * j] % 2;
        NonzeroAhead(reals[used..]);
        var r, k := GetRandomDouble(reals[used..]);
        NextMagnitude(reals, used, k, magnitudes, j);
        ghost var p := Perturbation(whichNum, whichMutator == 0, r);
        assert steps[j] == p by {
          assert steps[j] == DrawStep(n, sizes[1..], magnitudes, j);
          assert sizes[1..][2 * j] == sizes[1 + 2 * j];
          assert sizes[1..][2 * j + 1] == sizes[2 + 2 * j];
        }
        ghost var before := c;
        var x := c[whichNum];
        if whichMutator == 0 {
          x := x + r;
        } else {
          x := x - r;
        }
        if round {
          x := Trunc(x);
        }
        assert x == Perturb(before[whichNum], p, round);
        c := c[whichNum := x];
        assert c == ApplyStep(before, p, round);
        ApplyNextStep(base, steps, j, round);
        used := used + k;
      }
      assert steps[..3] == steps;
    }

    /** The guard conditions in order; the first one that is not exactly 1
        rejects the candidate, and a malformed one aborts. */
    method TestConditions(c: Candidate) returns (v: Verdict)
      ensures v == CheckConditions(eval, conditions, c)
    {
      for i := 0 to |conditions|
        invariant CheckFrom(eval, conditions, c, i) == CheckConditions(eval, conditions, c)
      {
        match eval(conditions[i], c)
        case ParseError(m) =>
          return ConditionError(ConfigError(conditions[i], m));
        case Value(x) =>
          if x != 1.0 {
            return Violated(i);
          }
      }
      return Satisfied;
    }

    /** Evaluates both target expressions and counts one iteration; a
        malformed expression aborts before the count. */
    method NumStructToDiff(c: Candidate) returns (s: Scoring)
      modifies this`iter
      ensures s == Score(eval, expr1, expr2, c)
      ensures iter == if s.Scored? then old(iter) + 1 else old(iter)
    {
      var e1 := eval(expr1, c);
      if e1.ParseError? {
        return ExpressionError(ConfigError(expr1, e1.message));
      }
      var e2 := eval(expr2, c);
      if e2.ParseError? {
        return ExpressionError(ConfigError(expr2, e2.message));
      }
      iter := iter + 1;
      s := Scored(e1.v, e2.v, Distance(e1.v, e2.v));
    }

    /** One round of the search, given the best difference so far: mutate,
        filter, score, and append the candidate on strict improvement; every
        other outcome leaves the corpus as it was. The counter moves exactly
        when the candidate is scored. */
    method Step(sizes: seq<nat>, reals: seq<real>, best: Option<real>) returns (c: Candidate, outcome: Outcome)
      requires Valid() && 7 <= |sizes| && 3 <= |Nonzeros(reals)|
      modifies this
      ensures Valid()
      ensures c == Mutation(old(corpus), sizes, reals)
      ensures outcome == Judge(eval, conditions, expr1, expr2, best, c)
      ensures corpus == if outcome.Accepted? then old(corpus) + [c] else old(corpus)
      ensures iter == if outcome.Counted() then old(iter) + 1 else old(iter)
    {
      var used;
      c, used := Mutate(sizes, reals);
      MutationFrame(corpus[sizes[0] % |corpus|], sizes[1..], reals, round);
      var verdict := TestConditions(c);
      match verdict
      case Violated(i) =>
        return c, Filtered(i);
      case ConditionError(e) =>
        return c, Aborted(e);
      case Satisfied =>
      var s := NumStructToDiff(c);
      if s.ExpressionError? {
        return c, Aborted(s.error);
      }
      if Improves(best, s.diff) {
        assert round ==> AllIntegral(c) by {
          if round {
            assert AllIntegral(corpus[sizes[0] % |corpus|]);
          }
        }
        Record(corpus, c);
        corpus := corpus + [c];
        outcome := Accepted(s.diff);
      } else {
        outcome := Rejected(s.diff);
      }
    }

    /** The search loop run for at most |rounds| rounds, the best difference
        local to the run and absent when it starts. Every round is judged
        against the best of the run so far, on the mutation of the corpus as
        the earlier acceptances left it; the corpus grows by exactly the
        accepted candidates, and the counter by the rounds that reached
        scoring. The run ends at the first solved round, with
        that candidate, at the first malformed expression, or when the
        rounds are used up, and never earlier. */
    method Fuzz(rounds: seq<Draws>) returns (finish: Finish, ghost outcomes: seq<Outcome>,
                                             ghost candidates: seq<Candidate>)
      requires Valid()
      requires forall r :: 0 <= r < |rounds| ==> Enough(rounds[r])
      modifies this
      ensures Valid()
      ensures Run(rounds, old(corpus), corpus, outcomes, candidates, Best(AcceptedDiffs(outcomes)))
      ensures forall i :: 0 <= i < |outcomes| - 1 ==> !outcomes[i].Final()
      ensures finish.OutOfRounds? ==> |outcomes| == |rounds| && Ongoing(outcomes)
      ensures finish.Stopped? ==> outcomes != [] && outcomes[|outcomes| - 1] == Aborted(finish.error)
      ensures finish.Solution? ==>
        && outcomes != [] && outcomes[|outcomes| - 1].Solved()
        && finish.c == candidates[|candidates| - 1] == corpus[|corpus| - 1]
        && CheckConditions(eval, conditions, finish.c) == Satisfied
        && eval(expr1, finish.c).Value?
        && eval(expr1, finish.c) == eval(expr2, finish.c)
      ensures iter == old(iter) + CountedRounds(outcomes)
    {
      var diff: Option<real> := None;
      outcomes, candidates := [], [];
      var r := 0;
      while r < |rounds|
        invariant r == |outcomes| <= |rounds|
        invariant Valid()
        invariant Run(rounds, old(corpus), corpus, outcomes, candidates, diff)
        invariant Ongoing(outcomes)
        invariant iter == old(iter) + CountedRounds(outcomes)
      {
        ghost var entries := corpus;
        var c, outcome := Step(rounds[r].sizes, rounds[r].reals, diff);
        RunExtends(rounds, old(corpus), entries, outcomes, candidates, diff, c, outcome, corpus);
        if outcome.Solved() {
          SolvedMeans(eval, conditions, expr1, expr2, diff, c);
        }
        OngoingSnoc(outcomes, outcome);
        CountedSnoc(outcomes, outcome);
        assert iter == old(iter) + CountedRounds(outcomes + [outcome]);
        outcomes, candidates := outcomes + [outcome], candidates + [c];
        if outcome.Accepted? {
          diff := Some(outcome.diff);
        }
        if outcome.Aborted? {
          return Stopped(outcome.error), outcomes, candidates;
        }
        if outcome.Solved() {
          assert corpus == entries + [c];
          return Solution(c), outcomes, candidates;
        }
        r := r + 1;
      }
      return OutOfRounds, outcomes, candidates;
    }
  }
}
