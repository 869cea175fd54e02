/**
 * The start of the routine: the run-count check and the bounded repair of a
 * singular starting design by resampling every row from the candidate list.
 * The random index vectors are supplied as `draws`, one vector per round.
 */
module SingularityGuard {
  import opened Types
  import opened Criteria

  /** The number of resampling rounds allowed. */
  const MaxSingularityChecks: nat := 10

  /** Each of the rounds holds n indices into a candidate list of m rows. */
  predicate ValidDraws(draws: seq<seq<int>>, n: nat, m: nat)
  {
    && |draws| >= MaxSingularityChecks
    && forall t :: 0 <= t < |draws| ==>
         |draws[t]| == n && forall i :: 0 <= i < n ==> 0 <= draws[t][i] < m
  }

  /** The design that overwrites every row i with candidate row round[i]. */
  function Resample(candidates: Matrix, round: seq<int>, n: nat): (d: Matrix)
    requires |round| == n && forall i :: 0 <= i < n ==> 0 <= round[i] < |candidates|
    ensures |d| == n
    ensures forall i :: 0 <= i < n ==> d[i] in candidates
  {
    seq(n, i requires 0 <= i < n => candidates[round[i]])
  }

  /** The design tested after t resampling rounds: the seed itself for t = 0. */
  function Attempt(initial: Matrix, candidates: Matrix, draws: seq<seq<int>>, t: nat): (d: Matrix)
    requires t <= MaxSingularityChecks
    requires t > 0 ==> ValidDraws(draws, |initial|, |candidates|)
    ensures |d| == |initial|
    ensures t == 0 ==> d == initial
    ensures t > 0 ==> forall i :: 0 <= i < |d| ==> d[i] in candidates
  {
    if t == 0 then initial else Resample(candidates, draws[t - 1], |initial|)
  }

  /** The first round from t on (up to the bound) whose design is non-singular. */
  function FirstInvertible(initial: Matrix, candidates: Matrix, p: nat, invSympd: Matrix -> Option<Matrix>,
                           draws: seq<seq<int>>, t: nat): (r: Option<nat>)
    requires ValidDraws(draws, |initial|, |candidates|)
    requires t <= MaxSingularityChecks + 1
    ensures r.Some? ==>
              && t <= r.value <= MaxSingularityChecks
              && Invertible(Attempt(initial, candidates, draws, r.value), p, invSympd)
              && forall u :: t <= u < r.value ==> !Invertible(Attempt(initial, candidates, draws, u), p, invSympd)
    ensures r.None? ==>
              forall u :: t <= u <= MaxSingularityChecks ==> !Invertible(Attempt(initial, candidates, draws, u), p, invSympd)
    decreases MaxSingularityChecks + 1 - t
  {
    if t > MaxSingularityChecks then None
    else if Invertible(Attempt(initial, candidates, draws, t), p, invSympd) then Some(t)
    else FirstInvertible(initial, candidates, p, invSympd, draws, t + 1)
  }

  /** What the start of the routine leaves: the design the sweeps begin from, or the error. */
  function BootstrapOutcome(initial: Matrix, candidates: Matrix, p: nat, invSympd: Matrix -> Option<Matrix>,
                            draws: seq<seq<int>>): (r: Result<Matrix, Error>)
    requires |candidates| > 0 ==> ValidDraws(draws, |initial|, |candidates|)
    ensures r == Failure(TooFewRuns) <==> |initial| <= p
    ensures r.Success? ==> Invertible(r.value, p, invSympd) && |r.value| == |initial|
    ensures r.Success? ==>
              || r.value == initial
              || (&& |candidates| > 0
                  && exists t :: 0 <= t < MaxSingularityChecks && r.value == Resample(candidates, draws[t], |initial|))
    ensures r.Success? && Rectangular(initial, p) && Rectangular(candidates, p) ==> Rectangular(r.value, p)
    ensures r == Failure(SingularStart) <==>
              && |initial| > p && |candidates| > 0
              && forall t :: 0 <= t <= MaxSingularityChecks ==> !Invertible(Attempt(initial, candidates, draws, t), p, invSympd)
    ensures r == Failure(InvalidDrawRange) <==> |initial| > p && !Invertible(initial, p, invSympd) && |candidates| == 0
    ensures r.Failure? ==> r.error != SingularInSweep
  {
    if |initial| <= p then Failure(TooFewRuns)
    else if Invertible(initial, p, invSympd) then
      assert Invertible(Attempt(initial, candidates, draws, 0), p, invSympd);
      Success(initial)
    else if |candidates| == 0 then Failure(InvalidDrawRange)
    else match FirstInvertible(initial, candidates, p, invSympd, draws, 1)
      case Some(t) => Success(Attempt(initial, candidates, draws, t))
      case None => Failure(SingularStart)
  }

  /** How the repair loop's exit state determines the outcome. */
  lemma RepairExit(initial: Matrix, candidates: Matrix, p: nat, invSympd: Matrix -> Option<Matrix>,
                   draws: seq<seq<int>>, check: nat)
    requires |initial| > p && !Invertible(initial, p, invSympd)
    requires |candidates| > 0 && ValidDraws(draws, |initial|, |candidates|)
    requires check <= MaxSingularityChecks
    requires forall u :: 0 <= u < check ==> !Invertible(Attempt(initial, candidates, draws, u), p, invSympd)
    ensures Invertible(Attempt(initial, candidates, draws, check), p, invSympd) ==>
              BootstrapOutcome(initial, candidates, p, invSympd, draws) == Success(Attempt(initial, candidates, draws, check))
    ensures !Invertible(Attempt(initial, candidates, draws, check), p, invSympd) && check == MaxSingularityChecks ==>
              BootstrapOutcome(initial, candidates, p, invSympd, draws) == Failure(SingularStart)
  {
    var first := FirstInvertible(initial, candidates, p, invSympd, draws, 1);
    var outcome := BootstrapOutcome(initial, candidates, p, invSympd, draws);
    assert outcome == if first.Some? then Success(Attempt(initial, candidates, draws, first.value)) else Failure(SingularStart);
    if Invertible(Attempt(initial, candidates, draws, check), p, invSympd) {
      assert first.Some? && first.value == check;
    } else if check == MaxSingularityChecks {
      assert first.None?;
    }
  }

  /** One repair round: every design row i becomes candidate row randomRows[i]. */
  method ResampleRows(design: array<Row>, candidates: Matrix, randomRows: seq<int>)
    requires |randomRows| == design.Length
    requires forall i :: 0 <= i < design.Length ==> 0 <= randomRows[i] < |candidates|
    modifies design
    ensures design[..] == Resample(candidates, randomRows, design.Length)
  {
    for i := 0 to design.Length
      invariant design[..i] == Resample(candidates, randomRows, design.Length)[..i]
    {
      design[i] := candidates[randomRows[i]];
    }
    assert design[..] == design[..design.Length];
  }

  /**
   * The start of the routine, in place on the design: fails on too few runs,
   * otherwise resamples a singular design at most MaxSingularityChecks times.
   */
  method Bootstrap(design: array<Row>, candidates: Matrix, p: nat, invSympd: Matrix -> Option<Matrix>,
                   draws: seq<seq<int>>) returns (err: Option<Error>)
    requires |candidates| > 0 ==> ValidDraws(draws, design.Length, |candidates|)
    modifies design
    ensures var b := BootstrapOutcome(old(design[..]), candidates, p, invSympd, draws);
            if err.None? then b == Success(design[..]) else b == Failure(err.value)
  {
    var nTrials := design.Length;
    if nTrials <= p {
      return Some(TooFewRuns);
    }
    ghost var initial := design[..];
    if !Invertible(design[..], p, invSympd) {
      var check := 0;
      while !Invertible(design[..], p, invSympd) && check < MaxSingularityChecks
        invariant 0 <= check <= MaxSingularityChecks
        invariant check > 0 ==> |candidates| > 0
        invariant design[..] == Attempt(initial, candidates, draws, check)
        invariant forall u :: 0 <= u < check ==> !Invertible(Attempt(initial, candidates, draws, u), p, invSympd)
      {
        if |candidates| == 0 {
          return Some(InvalidDrawRange);
        }
        ResampleRows(design, candidates, draws[check]);
        check := check + 1;
      }
      RepairExit(initial, candidates, p, invSympd, draws, check);
      if !Invertible(design[..], p, invSympd) {
        return Some(SingularStart);
      }
    }
    err := None;
  }
}
