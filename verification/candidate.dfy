/** Candidates: the fixed-length tuples of numbers the search works on, and
    the perturbations the mutator applies to them. A candidate is a value:
    it is copied out of the corpus, changed as a copy, and copied back in. */
module Candidates {

  /** One number per variable; position i is bound to the i-th letter. */
  type Candidate = seq<real>

  /** The value-initialised candidate the corpus is seeded with. */
  function Zeros(n: nat): (c: Candidate)
    ensures |c| == n
    ensures forall k :: 0 <= k < n ==> c[k] == 0.0
  {
    seq(n, _ => 0.0)
  }

  predicate IsIntegral(x: real) {
    x == x.Floor as real
  }

  predicate AllIntegral(c: Candidate) {
    forall k :: 0 <= k < |c| ==> IsIntegral(c[k])
  }

  /** x minus its fractional part, the fractional part taken with the sign
      of x (as std::modf gives it): truncation toward zero. */
  function Trunc(x: real): (t: real)
    ensures IsIntegral(t)
    ensures 0.0 <= x ==> 0.0 <= t <= x && x - t < 1.0
    ensures x < 0.0 ==> x <= t <= 0.0 && t - x < 1.0
  {
    if x >= 0.0 then
      var k := x.Floor;
      IntegralOfInt(k);
      k as real
    else
      var k := -((-x).Floor);
      IntegralOfInt(k);
      k as real
  }

  lemma IntegralOfInt(k: int)
    ensures IsIntegral(k as real)
  {
  }

  /** Truncation leaves a number that is already integral alone, so a
      rounded corpus is a fixed point of the rounding step. */
  lemma TruncOfIntegral(x: real)
    requires IsIntegral(x)
    ensures Trunc(x) == x
  {
    if x < 0.0 {
      var k := x.Floor;
      assert -x == (-k) as real;
      assert (-x).Floor == -k;
    }
  }

  /** One of the three steps of a mutation: the variable it selects, whether
      it adds or subtracts, and the drawn magnitude. */
  datatype Perturbation = Perturbation(index: nat, add: bool, magnitude: real)

  /** One step applied to one number, truncated toward zero in round mode. */
  function Perturb(x: real, p: Perturbation, round: bool): (y: real)
    ensures round ==> IsIntegral(y)
    ensures round ==> -1.0 < y - (if p.add then x + p.magnitude else x - p.magnitude) < 1.0
    ensures !round && p.magnitude != 0.0 ==> y != x
  {
    var moved := if p.add then x + p.magnitude else x - p.magnitude;
    if round then Trunc(moved) else moved
  }

  /** A step changes the selected number and no other. */
  function ApplyStep(c: Candidate, p: Perturbation, round: bool): (d: Candidate)
    requires p.index < |c|
    ensures |d| == |c|
    ensures d[p.index] == Perturb(c[p.index], p, round)
    ensures forall k :: 0 <= k < |c| && k != p.index ==> d[k] == c[k]
  {
    c[p.index := Perturb(c[p.index], p, round)]
  }

  /** Every step selects one of the n variables. */
  predicate InBounds(steps: seq<Perturbation>, n: nat) {
    forall j :: 0 <= j < |steps| ==> steps[j].index < n
  }

  /** The steps applied in order, first to last. */
  function ApplySteps(c: Candidate, steps: seq<Perturbation>, round: bool): (d: Candidate)
    requires InBounds(steps, |c|)
    ensures |d| == |c|
    decreases |steps|
  {
    if steps == [] then c
    else
      var last := |steps| - 1;
      ApplyStep(ApplySteps(c, steps[..last], round), steps[last], round)
  }

  /** Applying one more step of a sequence of steps. */
  lemma ApplyNextStep(c: Candidate, steps: seq<Perturbation>, j: nat, round: bool)
    requires InBounds(steps, |c|) && j < |steps|
    ensures ApplySteps(c, steps[..j + 1], round) == ApplyStep(ApplySteps(c, steps[..j], round), steps[j], round)
  {
    assert steps[..j + 1][..j] == steps[..j];
  }

  /** A number that no step selects keeps its value. */
  lemma {:induction false} UntouchedUnchanged(c: Candidate, steps: seq<Perturbation>, round: bool, k: nat)
    requires InBounds(steps, |c|) && k < |c|
    requires forall j :: 0 <= j < |steps| ==> steps[j].index != k
    ensures ApplySteps(c, steps, round)[k] == c[k]
  {
    if steps != [] {
      UntouchedUnchanged(c, steps[..|steps| - 1], round, k);
    }
  }

  /** In round mode a number ends integral if it started integral or some
      step selected it. */
  lemma {:induction false} RoundedIntegral(c: Candidate, steps: seq<Perturbation>, k: nat)
    requires InBounds(steps, |c|) && k < |c|
    requires IsIntegral(c[k]) || exists j :: 0 <= j < |steps| && steps[j].index == k
    ensures IsIntegral(ApplySteps(c, steps, true)[k])
  {
    if steps != [] {
      var last := |steps| - 1;
      if steps[last].index != k {
        var prefix := steps[..last];
        if !IsIntegral(c[k]) {
          var j :| 0 <= j < |steps| && steps[j].index == k;
          assert prefix[j].index == k;
        }
        RoundedIntegral(c, prefix, k);
      }
    }
  }

  /** Round mode keeps an integral candidate integral. */
  lemma RoundedKeepsIntegral(c: Candidate, steps: seq<Perturbation>)
    requires InBounds(steps, |c|) && AllIntegral(c)
    ensures AllIntegral(ApplySteps(c, steps, true))
  {
    forall k | 0 <= k < |c|
      ensures IsIntegral(ApplySteps(c, steps, true)[k])
    {
      RoundedIntegral(c, steps, k);
    }
  }

  /** The magnitudes the rejection loop can yield: the nonzero draws, in
      order. */
  function Nonzeros(draws: seq<real>): (m: seq<real>)
    ensures |m| <= |draws|
    ensures forall j :: 0 <= j < |m| ==> m[j] != 0.0
    decreases |draws|
  {
    if draws == [] then []
    else if draws[0] == 0.0 then Nonzeros(draws[1..])
    else [draws[0]] + Nonzeros(draws[1..])
  }

  /** While a nonzero magnitude remains, the rejection loop has a nonzero
      draw to stop at. */
  lemma {:induction false} NonzeroAhead(draws: seq<real>)
    requires Nonzeros(draws) != []
    ensures exists i :: 0 <= i < |draws| && draws[i] != 0.0
  {
    if draws[0] == 0.0 {
      NonzeroAhead(draws[1..]);
      var i :| 0 <= i < |draws[1..]| && draws[1..][i] != 0.0;
      assert draws[i + 1] != 0.0;
    }
  }

  /** After zero draws, the first nonzero draw is the first magnitude and the
      rest come from the draws after it. */
  lemma {:induction false} FirstNonzero(draws: seq<real>, used: nat)
    requires 0 < used <= |draws| && draws[used - 1] != 0.0
    requires forall i :: 0 <= i < used - 1 ==> draws[i] == 0.0
    ensures Nonzeros(draws) == [draws[used - 1]] + Nonzeros(draws[used..])
  {
    if used > 1 {
      assert draws[1..][used - 1..] == draws[used..];
      FirstNonzero(draws[1..], used - 1);
    }
  }

  /** One pass of the rejection loop over the remaining draws consumes the
      next magnitude and leaves the ones after it. */
  lemma NextMagnitude(draws: seq<real>, used: nat, k: nat, magnitudes: seq<real>, j: nat)
    requires used <= |draws| && j < |magnitudes| && Nonzeros(draws[used..]) == magnitudes[j..]
    requires 0 < k <= |draws[used..]| && draws[used..][k - 1] != 0.0
    requires forall i :: 0 <= i < k - 1 ==> draws[used..][i] == 0.0
    ensures draws[used..][k - 1] == magnitudes[j]
    ensures used + k <= |draws| && Nonzeros(draws[used + k..]) == magnitudes[j + 1..]
  {
    var rest := draws[used..];
    FirstNonzero(rest, k);
    assert rest[k..] == draws[used + k..];
    assert magnitudes[j..] == [magnitudes[j]] + magnitudes[j + 1..];
  }

  /** The three perturbations of one mutation: for step j, picks[2j] chooses
      the variable modulo n, picks[2j+1] the operation modulo 2 (0 adds,
      1 subtracts), and magnitudes[j] is the j-th nonzero real draw. */
  function DrawSteps(n: nat, picks: seq<nat>, magnitudes: seq<real>): (steps: seq<Perturbation>)
    requires 0 < n && 6 <= |picks| && 3 <= |magnitudes|
    ensures |steps| == 3 && InBounds(steps, n)
  {
    [DrawStep(n, picks, magnitudes, 0), DrawStep(n, picks, magnitudes, 1), DrawStep(n, picks, magnitudes, 2)]
  }

  /** Step j of a mutation. */
  function DrawStep(n: nat, picks: seq<nat>, magnitudes: seq<real>, j: nat): (p: Perturbation)
    requires 0 < n && j < 3 && 6 <= |picks| && 3 <= |magnitudes|
    ensures p.index < n
  {
    Perturbation(picks[2 * j] % n, picks[2 * j + 1] % 2 == 0, magnitudes[j])
  }

  /** What a mutation promises: three steps, all in bounds and all moving by
      a nonzero amount; every variable none of them picks keeps the base's
      value; and in round mode an integral base stays integral. */
  lemma MutationFrame(base: Candidate, picks: seq<nat>, draws: seq<real>, round: bool)
    requires 0 < |base| && 6 <= |picks| && 3 <= |Nonzeros(draws)|
    ensures var steps := DrawSteps(|base|, picks, Nonzeros(draws));
      var c := ApplySteps(base, steps, round);
      && |c| == |base|
      && (forall j :: 0 <= j < 3 ==> steps[j].magnitude != 0.0)
      && (forall k :: (0 <= k < |base| && k != picks[0] % |base| && k != picks[2] % |base|
            && k != picks[4] % |base|) ==> c[k] == base[k])
      && (round && AllIntegral(base) ==> AllIntegral(c))
  {
    var steps := DrawSteps(|base|, picks, Nonzeros(draws));
    forall k | 0 <= k < |base| && k != picks[0] % |base| && k != picks[2] % |base|
        && k != picks[4] % |base|
      ensures ApplySteps(base, steps, round)[k] == base[k]
    {
      UntouchedUnchanged(base, steps, round, k);
    }
    if round && AllIntegral(base) {
      RoundedKeepsIntegral(base, steps);
    }
  }
}
