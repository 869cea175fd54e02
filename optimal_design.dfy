/**
 * The exported routine: the start-up checks and repair, then one sweep
 * under the criterion named by `condition`, then the design and the
 * provenance vector as the result.
 */
module OptimalDesign {
  import opened Types
  import opened Criteria
  import opened SingularityGuard
  import opened ExchangeEngine

  /** The routine's result: the provenance indices and the final model matrix. */
  datatype Fit = Fit(indices: seq<int>, modelMatrix: Matrix)

  /** The sweep a condition string selects; any other string selects none. */
  function RuleFor(condition: string, moments: Matrix): (rule: Option<Rule>)
    ensures rule == Some(DeltaRule) <==> condition == "D"
    ensures rule == Some(VarianceRule(IOptimality(moments))) <==> condition == "I"
    ensures rule == Some(VarianceRule(AOptimality)) <==> condition == "A"
    ensures rule.None? <==> condition != "D" && condition != "I" && condition != "A"
  {
    if condition == "D" then Some(DeltaRule)
    else if condition == "I" then Some(VarianceRule(IOptimality(moments)))
    else if condition == "A" then Some(VarianceRule(AOptimality))
    else None
  }

  /** What one sweep under a rule leaves, starting from the design start. */
  ghost predicate SweepOutcome(rule: Rule, start: Matrix, s: Setup, r: Result<Fit, Error>)
  {
    match r
    case Success(fit) => RowsOk(rule, start, fit.modelMatrix, fit.indices, |start|, s)
    case Failure(e) =>
      && rule == DeltaRule && e == SingularInSweep
      && exists d, idx, k :: StoppedAt(start, d, idx, k, s)
  }

  /** The sweep the rule selects, run in place on a non-singular design; no rule leaves everything as it was. */
  method Optimize(rule: Option<Rule>, design: array<Row>, candidateRow: array<int>, s: Setup) returns (ok: bool)
    requires candidateRow.Length == design.Length <= |s.initialRows|
    requires Invertible(design[..], s.p, s.invSympd)
    modifies design, candidateRow
    ensures ok && rule.Some? ==> RowsOk(rule.value, old(design[..]), design[..], candidateRow[..], design.Length, s)
    ensures ok && rule.Some? && rule.value.VarianceRule? ==>
              && Invertible(design[..], s.p, s.invSympd)
              && Variance(rule.value.obj, design[..], s.p, s.invSympd).value
                 <= Variance(rule.value.obj, old(design[..]), s.p, s.invSympd).value
    ensures ok && rule.None? ==> design[..] == old(design[..]) && candidateRow[..] == old(candidateRow[..])
    ensures !ok ==> rule == Some(DeltaRule) && exists k :: StoppedAt(old(design[..]), design[..], candidateRow[..], k, s)
  {
    ok := true;
    if rule == Some(DeltaRule) {
      ok := SweepD(design, candidateRow, s);
    } else if rule.Some? {
      SweepVariance(rule.value.obj, design, candidateRow, s);
    }
  }

  /** The shape and provenance facts of a sweep's result. */
  lemma FitFacts(rule: Option<Rule>, start: Matrix, fit: Fit, s: Setup)
    requires Rectangular(start, s.p) && Rectangular(s.candidates, s.p)
    requires rule.Some? ==> RowsOk(rule.value, start, fit.modelMatrix, fit.indices, |start|, s)
    requires rule.None? ==> fit == Fit(seq(|start|, _ => 0), start)
    ensures |fit.indices| == |start| && |fit.modelMatrix| == |start|
    ensures Rectangular(fit.modelMatrix, s.p)
    ensures rule.Some? ==>
              forall i :: 0 <= i < |start| ==>
                || (1 <= fit.indices[i] <= |s.candidates| && fit.modelMatrix[i] == s.candidates[fit.indices[i] - 1])
                || (fit.indices[i] == TruncToInt(s.initialRows[i]) && fit.modelMatrix[i] == start[i])
  {
    if rule.Some? {
      SweepProvenance(rule.value, start, fit.modelMatrix, fit.indices, |start|, s);
    }
  }

  /**
   * Everything after the start-up checks, in place on a non-singular design
   * and a zero provenance array: the selected sweep, then the result.
   */
  method Improve(rule: Option<Rule>, design: array<Row>, candidateRow: array<int>, s: Setup)
    returns (r: Result<Fit, Error>)
    requires candidateRow.Length == design.Length <= |s.initialRows|
    requires forall i :: 0 <= i < candidateRow.Length ==> candidateRow[i] == 0
    requires Invertible(design[..], s.p, s.invSympd)
    requires Rectangular(design[..], s.p) && Rectangular(s.candidates, s.p)
    modifies design, candidateRow
    ensures match rule
            case Some(rl) => SweepOutcome(rl, old(design[..]), s, r)
            case None => r == Success(Fit(seq(design.Length, _ => 0), old(design[..])))
    ensures r.Success? ==>
              && |r.value.indices| == design.Length
              && |r.value.modelMatrix| == design.Length
              && Rectangular(r.value.modelMatrix, s.p)
    ensures r.Success? && rule.Some? ==>
              forall i :: 0 <= i < design.Length ==>
                || (1 <= r.value.indices[i] <= |s.candidates|
                    && r.value.modelMatrix[i] == s.candidates[r.value.indices[i] - 1])
                || (r.value.indices[i] == TruncToInt(s.initialRows[i]) && r.value.modelMatrix[i] == old(design[..])[i])
    ensures r.Success? && rule.Some? && rule.value.VarianceRule? ==>
              && Invertible(r.value.modelMatrix, s.p, s.invSympd)
              && Variance(rule.value.obj, r.value.modelMatrix, s.p, s.invSympd).value
                 <= Variance(rule.value.obj, old(design[..]), s.p, s.invSympd).value
  {
    ghost var start := design[..];
    assert candidateRow[..] == seq(design.Length, _ => 0);
    var ok := Optimize(rule, design, candidateRow, s);
    if !ok {
      return Failure(SingularInSweep);
    }
    r := Success(Fit(candidateRow[..], design[..]));
    FitFacts(rule, start, r.value, s);
  }

  method GenOptimalDesign(initialDesign: Matrix, candidates: Matrix, p: nat, condition: string,
                          moments: Matrix, initialRows: seq<real>, draws: seq<seq<int>>,
                          invSympd: Matrix -> Option<Matrix>)
    returns (r: Result<Fit, Error>)
    requires Rectangular(initialDesign, p) && Rectangular(candidates, p)
    requires |initialRows| >= |initialDesign|
    requires |candidates| > 0 ==> ValidDraws(draws, |initialDesign|, |candidates|)
    requires condition == "I" ==> |moments| == p && Rectangular(moments, p)
    ensures |initialDesign| <= p ==> r == Failure(TooFewRuns)
    ensures var b, rule := BootstrapOutcome(initialDesign, candidates, p, invSympd, draws), RuleFor(condition, moments);
            if b.Failure? then r == Failure(b.error)
            else
              && (match rule
                  case Some(rl) => SweepOutcome(rl, b.value, Setup(candidates, p, invSympd, initialRows), r)
                  case None => r == Success(Fit(seq(|initialDesign|, _ => 0), b.value)))
              && (r.Success? ==>
                    && |r.value.indices| == |initialDesign|
                    && |r.value.modelMatrix| == |initialDesign|
                    && Rectangular(r.value.modelMatrix, p))
              && (r.Success? && rule.Some? ==>
                    forall i :: 0 <= i < |initialDesign| ==>
                      || (1 <= r.value.indices[i] <= |candidates|
                          && r.value.modelMatrix[i] == candidates[r.value.indices[i] - 1])
                      || (r.value.indices[i] == TruncToInt(initialRows[i]) && r.value.modelMatrix[i] == b.value[i]))
              && (r.Success? && rule.Some? && rule.value.VarianceRule? ==>
                    && Invertible(b.value, p, invSympd)
                    && Invertible(r.value.modelMatrix, p, invSympd)
                    && Variance(rule.value.obj, r.value.modelMatrix, p, invSympd).value
                       <= Variance(rule.value.obj, b.value, p, invSympd).value)
  {
    var nTrials := |initialDesign|;
    var candidateRow := new int[nTrials](_ => 0);
    var design := new Row[nTrials](i requires 0 <= i < nTrials => initialDesign[i]);
    assert design[..] == initialDesign;
    var err := Bootstrap(design, candidates, p, invSympd, draws);
    if err.Some? {
      return Failure(err.value);
    }
    assert BootstrapOutcome(initialDesign, candidates, p, invSympd, draws) == Success(design[..]);
    r := Improve(RuleFor(condition, moments), design, candidateRow, Setup(candidates, p, invSympd, initialRows));
  }
}
