/**
 * The single greedy exchange sweep. Rows of the design are visited once, in
 * increasing order; for every row the candidates are scanned in increasing
 * order and the row is overwritten only by a candidate that strictly improves
 * the criterion, the earliest one among equally good ones. The provenance
 * vector records the 1-based candidate index, or the caller's seed index when
 * the row is kept.
 */
module ExchangeEngine {
  import opened Types
  import opened LinearAlgebra
  import opened Criteria

  /** The read-only inputs of a sweep. */
  datatype Setup = Setup(candidates: Matrix, p: nat, invSympd: Matrix -> Option<Matrix>, initialRows: seq<real>)

  /** The conversion of a double to a C++ int: truncation toward zero. */
  function TruncToInt(x: real): (n: int)
    ensures 0.0 <= x ==> n as real <= x < n as real + 1.0
    ensures x < 0.0 ==> n as real - 1.0 < x <= n as real
  {
    if x >= 0.0 then x.Floor else - (-x).Floor
  }

  // ---------------------------------------------------------------- D criterion

  /** Candidate j has a strictly positive gain, the largest gain, and no earlier candidate ties it. */
  predicate IsBestD(V: Matrix, x: Row, candidates: Matrix, j: int)
  {
    && 0 <= j < |candidates|
    && Delta(V, x, candidates[j]) > 0.0
    && (forall k :: 0 <= k < |candidates| ==> Delta(V, x, candidates[k]) <= Delta(V, x, candidates[j]))
    && (forall k :: 0 <= k < j ==> Delta(V, x, candidates[k]) < Delta(V, x, candidates[j]))
  }

  /** No candidate has a strictly positive gain. */
  predicate NoImprovingD(V: Matrix, x: Row, candidates: Matrix)
  {
    forall k :: 0 <= k < |candidates| ==> Delta(V, x, candidates[k]) <= 0.0
  }

  /** The candidate scan of one D-sweep row, with the threshold starting at 0. */
  method ScanD(V: Matrix, x: Row, candidates: Matrix) returns (found: bool, entryy: int)
    ensures found ==> IsBestD(V, x, candidates, entryy)
    ensures !found ==> NoImprovingD(V, x, candidates)
  {
    found := false;
    var del := 0.0;
    entryy := 0;
    for j := 0 to |candidates|
      invariant !found ==> del == 0.0
      invariant found ==> 0 <= entryy < j && del == Delta(V, x, candidates[entryy]) && del > 0.0
      invariant found ==> forall k :: 0 <= k < entryy ==> Delta(V, x, candidates[k]) < del
      invariant forall k :: 0 <= k < j ==> Delta(V, x, candidates[k]) <= del
    {
      var newdel := Delta(V, x, candidates[j]);
      if newdel > del {
        found := true;
        entryy := j;
        del := newdel;
      }
    }
  }

  /** Putting the current row back is never the D swap chosen. */
  lemma CurrentRowNeverBestD(V: Matrix, x: Row, candidates: Matrix, j: int)
    requires IsBestD(V, x, candidates, j)
    ensures candidates[j] != x
  {
  }

  // ------------------------------------------------------- I and A criteria

  /** The criterion of X with row i replaced by c; None when that design is singular. */
  function Trial(obj: Objective, X: Matrix, i: int, c: Row, p: nat, invSympd: Matrix -> Option<Matrix>): (v: Option<real>)
    requires 0 <= i < |X|
    ensures v.Some? <==> Invertible(X[i := c], p, invSympd)
    ensures c == X[i] ==> v == Variance(obj, X, p, invSympd)
  {
    assert X[i := X[i]] == X;
    Variance(obj, X[i := c], p, invSympd)
  }

  /**
   * Candidate j evaluates, is strictly below the threshold cur, is the least
   * value among the candidates that evaluate, and no earlier one ties it.
   */
  predicate IsBestVar(obj: Objective, X: Matrix, i: int, candidates: Matrix, p: nat,
                      invSympd: Matrix -> Option<Matrix>, cur: real, j: int)
  {
    && 0 <= i < |X|
    && 0 <= j < |candidates|
    && Trial(obj, X, i, candidates[j], p, invSympd).Some?
    && Trial(obj, X, i, candidates[j], p, invSympd).value < cur
    && (forall k :: 0 <= k < |candidates| && Trial(obj, X, i, candidates[k], p, invSympd).Some? ==>
          Trial(obj, X, i, candidates[j], p, invSympd).value <= Trial(obj, X, i, candidates[k], p, invSympd).value)
    && (forall k :: 0 <= k < j && Trial(obj, X, i, candidates[k], p, invSympd).Some? ==>
          Trial(obj, X, i, candidates[j], p, invSympd).value < Trial(obj, X, i, candidates[k], p, invSympd).value)
  }

  /** No candidate that evaluates is strictly below the threshold cur. */
  predicate NoImprovingVar(obj: Objective, X: Matrix, i: int, candidates: Matrix, p: nat,
                           invSympd: Matrix -> Option<Matrix>, cur: real)
  {
    && 0 <= i < |X|
    && forall k :: 0 <= k < |candidates| && Trial(obj, X, i, candidates[k], p, invSympd).Some? ==>
         cur <= Trial(obj, X, i, candidates[k], p, invSympd).value
  }

  /**
   * The candidate scan of one I- or A-sweep row: each candidate is written
   * into row i of a scratch copy and evaluated; a singular copy is skipped.
   */
  method ScanVariance(obj: Objective, current: Matrix, i: int, candidates: Matrix, p: nat,
                      invSympd: Matrix -> Option<Matrix>, del0: real)
    returns (found: bool, entryy: int, del: real)
    requires 0 <= i < |current|
    ensures found ==> IsBestVar(obj, current, i, candidates, p, invSympd, del0, entryy)
                      && Trial(obj, current, i, candidates[entryy], p, invSympd) == Some(del)
    ensures !found ==> NoImprovingVar(obj, current, i, candidates, p, invSympd, del0) && del == del0
  {
    found := false;
    entryy := 0;
    del := del0;
    var temp := current;
    for j := 0 to |candidates|
      invariant j == 0 ==> temp == current
      invariant j > 0 ==> temp == current[i := candidates[j - 1]]
      invariant !found ==> del == del0
      invariant found ==> && 0 <= entryy < j && del < del0
                          && Trial(obj, current, i, candidates[entryy], p, invSympd) == Some(del)
      invariant found ==> forall k :: 0 <= k < entryy && Trial(obj, current, i, candidates[k], p, invSympd).Some? ==>
                            del < Trial(obj, current, i, candidates[k], p, invSympd).value
      invariant forall k :: 0 <= k < j && Trial(obj, current, i, candidates[k], p, invSympd).Some? ==>
                  del <= Trial(obj, current, i, candidates[k], p, invSympd).value
    {
      temp := temp[i := candidates[j]];
      var newdel := Variance(obj, temp, p, invSympd);
      if newdel.Some? && newdel.value < del {
        found := true;
        entryy := j;
        del := newdel.value;
      }
    }
  }

  /** Putting the current row back is never the I or A swap chosen. */
  lemma CurrentRowNeverBestVar(obj: Objective, X: Matrix, i: int, candidates: Matrix, p: nat,
                               invSympd: Matrix -> Option<Matrix>, j: int)
    requires Invertible(X, p, invSympd)
    requires IsBestVar(obj, X, i, candidates, p, invSympd, Variance(obj, X, p, invSympd).value, j)
    ensures candidates[j] != X[i]
  {
    assert X[i := X[i]] == X;
  }

  // ------------------------------------------------------------- the sweep

  /** Which rule decides a row: the D gain, or one of the variance criteria. */
  datatype Rule = DeltaRule | VarianceRule(obj: Objective)

  /** The design in effect when row k is visited: rows before k as committed, the rest as at the start. */
  function Mid(start: Matrix, d: Matrix, k: int): (m: Matrix)
    requires |d| == |start| && 0 <= k <= |start|
    ensures |m| == |start|
  {
    d[..k] + start[k..]
  }

  /**
   * Row i of the design mid is decided: newRow and index are either the
   * chosen candidate and its 1-based index, or the unchanged row and the
   * fallback index when no candidate strictly improves.
   */
  predicate RowStep(rule: Rule, mid: Matrix, i: int, s: Setup, newRow: Row, index: int, fallback: int)
  {
    && 0 <= i < |mid|
    && Invertible(mid, s.p, s.invSympd)
    && match rule
       case DeltaRule =>
         var V := s.invSympd(Gram(mid, s.p)).value;
         || (IsBestD(V, mid[i], s.candidates, index - 1) && newRow == s.candidates[index - 1])
         || (NoImprovingD(V, mid[i], s.candidates) && newRow == mid[i] && index == fallback)
       case VarianceRule(obj) =>
         var cur := Variance(obj, mid, s.p, s.invSympd).value;
         || (IsBestVar(obj, mid, i, s.candidates, s.p, s.invSympd, cur, index - 1) && newRow == s.candidates[index - 1])
         || (NoImprovingVar(obj, mid, i, s.candidates, s.p, s.invSympd, cur) && newRow == mid[i] && index == fallback)
  }

  /** Rows 0 .. k-1 of d and idx are what the sweep commits, each against the design it sees. */
  predicate RowsOk(rule: Rule, start: Matrix, d: Matrix, idx: seq<int>, k: int, s: Setup)
  {
    && |d| == |start| && |idx| == |start| && 0 <= k <= |start| && |s.initialRows| >= |start|
    && forall r :: 0 <= r < k ==>
         RowStep(rule, Mid(start, d, r), r, s, d[r], idx[r], TruncToInt(s.initialRows[r]))
  }

  /** The D sweep stopped at row k: rows before k are done, and the inverse at row k fails. */
  predicate StoppedAt(start: Matrix, d: Matrix, idx: seq<int>, k: int, s: Setup)
  {
    && RowsOk(DeltaRule, start, d, idx, k, s)
    && k < |start|
    && d[k..] == start[k..]
    && !Invertible(d, s.p, s.invSympd)
  }

  lemma MidCurrent(start: Matrix, d: Matrix, k: int)
    requires |d| == |start| && 0 <= k <= |start| && d[k..] == start[k..]
    ensures Mid(start, d, k) == d
  {
    assert d == d[..k] + d[k..];
  }

  lemma MidNext(start: Matrix, d: Matrix, k: int)
    requires |d| == |start| && 0 <= k < |start|
    ensures Mid(start, d, k + 1) == Mid(start, d, k)[k := d[k]]
  {
    assert d[..k + 1] == d[..k] + [d[k]];
  }

  /** Committing row i extends the rows that are done by one. */
  lemma RowsOkStep(rule: Rule, start: Matrix, d: Matrix, idx: seq<int>, i: int, s: Setup, v: Row, c: int)
    requires RowsOk(rule, start, d, idx, i, s) && i < |start| && d[i..] == start[i..]
    requires RowStep(rule, d, i, s, v, c, TruncToInt(s.initialRows[i]))
    ensures RowsOk(rule, start, d[i := v], idx[i := c], i + 1, s)
    ensures d[i := v][i + 1..] == start[i + 1..]
  {
    var d' := d[i := v];
    MidCurrent(start, d, i);
    assert d'[..i] == d[..i];
    assert Mid(start, d', i) == d;
    forall r | 0 <= r < i
      ensures Mid(start, d', r) == Mid(start, d, r)
    {
      assert d'[..r] == d[..r];
    }
    assert d'[i + 1..] == d[i + 1..];
  }

  /** Every provenance entry is a valid 1-based candidate index holding that candidate, or the seed index of a kept row. */
  lemma {:induction false} SweepProvenance(rule: Rule, start: Matrix, d: Matrix, idx: seq<int>, k: int, s: Setup)
    requires RowsOk(rule, start, d, idx, k, s)
    ensures forall i :: 0 <= i < k ==>
              || (1 <= idx[i] <= |s.candidates| && d[i] == s.candidates[idx[i] - 1])
              || (idx[i] == TruncToInt(s.initialRows[i]) && d[i] == start[i])
  {
    forall i | 0 <= i < k
      ensures || (1 <= idx[i] <= |s.candidates| && d[i] == s.candidates[idx[i] - 1])
              || (idx[i] == TruncToInt(s.initialRows[i]) && d[i] == start[i])
    {
      assert Mid(start, d, i)[i] == start[i];
    }
  }

  /** A row step has exactly one outcome. */
  lemma RowStepUnique(rule: Rule, mid: Matrix, i: int, s: Setup, fallback: int,
                      v1: Row, c1: int, v2: Row, c2: int)
    requires RowStep(rule, mid, i, s, v1, c1, fallback)
    requires RowStep(rule, mid, i, s, v2, c2, fallback)
    ensures v1 == v2 && c1 == c2
  {
    match rule
    case DeltaRule =>
      var V := s.invSympd(Gram(mid, s.p)).value;
      if IsBestD(V, mid[i], s.candidates, c1 - 1) && IsBestD(V, mid[i], s.candidates, c2 - 1) {
        assert !(c1 < c2) && !(c2 < c1);
      }
    case VarianceRule(obj) =>
      var cur := Variance(obj, mid, s.p, s.invSympd).value;
      var C := s.candidates;
      if IsBestVar(obj, mid, i, C, s.p, s.invSympd, cur, c1 - 1) && IsBestVar(obj, mid, i, C, s.p, s.invSympd, cur, c2 - 1) {
        assert !(c1 < c2) && !(c2 < c1);
      }
  }

  lemma MidAgree(start: Matrix, d1: Matrix, d2: Matrix, k: int)
    requires |d1| == |start| && |d2| == |start| && 0 <= k <= |start|
    requires forall r :: 0 <= r < k ==> d1[r] == d2[r]
    ensures Mid(start, d1, k) == Mid(start, d2, k)
  {
    assert d1[..k] == d2[..k];
  }

  /** The sweep's outcome is determined by its inputs: two runs that follow the rules agree row for row. */
  lemma {:induction false} SweepDeterministic(rule: Rule, start: Matrix, s: Setup, k: int,
                                              d1: Matrix, idx1: seq<int>, d2: Matrix, idx2: seq<int>)
    requires RowsOk(rule, start, d1, idx1, k, s)
    requires RowsOk(rule, start, d2, idx2, k, s)
    ensures forall r :: 0 <= r < k ==> d1[r] == d2[r] && idx1[r] == idx2[r]
  {
    if k > 0 {
      SweepDeterministic(rule, start, s, k - 1, d1, idx1, d2, idx2);
      MidAgree(start, d1, d2, k - 1);
      var mid := Mid(start, d1, k - 1);
      assert RowStep(rule, mid, k - 1, s, d1[k - 1], idx1[k - 1], TruncToInt(s.initialRows[k - 1]));
      assert RowStep(rule, mid, k - 1, s, d2[k - 1], idx2[k - 1], TruncToInt(s.initialRows[k - 1]));
      RowStepUnique(rule, mid, k - 1, s, TruncToInt(s.initialRows[k - 1]),
                    d1[k - 1], idx1[k - 1], d2[k - 1], idx2[k - 1]);
    }
  }

  /** A completed sweep's design and provenance are unique. */
  lemma CompletedSweepUnique(rule: Rule, start: Matrix, s: Setup,
                             d1: Matrix, idx1: seq<int>, d2: Matrix, idx2: seq<int>)
    requires RowsOk(rule, start, d1, idx1, |start|, s)
    requires RowsOk(rule, start, d2, idx2, |start|, s)
    ensures d1 == d2 && idx1 == idx2
  {
    SweepDeterministic(rule, start, s, |start|, d1, idx1, d2, idx2);
  }

  /**
   * One row of an I or A sweep: the design after the row is non-singular,
   * its criterion is no larger, and strictly smaller when the row changed.
   */
  lemma VarianceStep(obj: Objective, start: Matrix, d: Matrix, idx: seq<int>, j: int, s: Setup)
    requires RowsOk(VarianceRule(obj), start, d, idx, j + 1, s)
    requires 0 <= j
    ensures Invertible(Mid(start, d, j), s.p, s.invSympd)
    ensures Invertible(Mid(start, d, j + 1), s.p, s.invSympd)
    ensures Variance(obj, Mid(start, d, j + 1), s.p, s.invSympd).value
            <= Variance(obj, Mid(start, d, j), s.p, s.invSympd).value
    ensures Mid(start, d, j + 1) != Mid(start, d, j) ==>
              Variance(obj, Mid(start, d, j + 1), s.p, s.invSympd).value
              < Variance(obj, Mid(start, d, j), s.p, s.invSympd).value
  {
    var mid := Mid(start, d, j);
    MidNext(start, d, j);
    assert RowStep(VarianceRule(obj), mid, j, s, d[j], idx[j], TruncToInt(s.initialRows[j]));
    assert mid[j := mid[j]] == mid;
  }

  /**
   * Over an I or A sweep the criterion of the design in effect never
   * increases: it is at most its value at every earlier row.
   */
  lemma {:induction false} VarianceNeverIncreases(obj: Objective, start: Matrix, d: Matrix, idx: seq<int>, k: int, s: Setup)
    requires RowsOk(VarianceRule(obj), start, d, idx, k, s)
    requires Invertible(start, s.p, s.invSympd)
    ensures Invertible(Mid(start, d, k), s.p, s.invSympd)
    ensures forall j :: 0 <= j <= k ==>
              && Invertible(Mid(start, d, j), s.p, s.invSympd)
              && Variance(obj, Mid(start, d, k), s.p, s.invSympd).value
                 <= Variance(obj, Mid(start, d, j), s.p, s.invSympd).value
  {
    if k == 0 {
      assert Mid(start, d, 0) == start;
    } else {
      VarianceNeverIncreases(obj, start, d, idx, k - 1, s);
      VarianceStep(obj, start, d, idx, k - 1, s);
    }
  }

  /** A D sweep can stop only after some earlier row was exchanged, if it started non-singular. */
  lemma StoppedOnlyAfterExchange(start: Matrix, d: Matrix, idx: seq<int>, k: int, s: Setup)
    requires StoppedAt(start, d, idx, k, s)
    requires Invertible(start, s.p, s.invSympd)
    ensures exists r :: 0 <= r < k && d[r] != start[r] && 1 <= idx[r] <= |s.candidates|
  {
    SweepProvenance(DeltaRule, start, d, idx, k, s);
    forall r | k <= r < |d|
      ensures d[r] == start[r]
    {
      assert d[k..][r - k] == start[k..][r - k];
    }
    assert d != start;
    var r :| 0 <= r < |d| && d[r] != start[r];
    assert r < k;
  }

  /** The D sweep in place: design rows and provenance entries, row by row. */
  method SweepD(design: array<Row>, candidateRow: array<int>, s: Setup) returns (ok: bool)
    requires candidateRow.Length == design.Length <= |s.initialRows|
    modifies design, candidateRow
    ensures ok ==> RowsOk(DeltaRule, old(design[..]), design[..], candidateRow[..], design.Length, s)
    ensures !ok ==> exists k :: StoppedAt(old(design[..]), design[..], candidateRow[..], k, s)
  {
    ghost var start := design[..];
    var nTrials := design.Length;
    for i := 0 to nTrials
      invariant design[i..] == start[i..]
      invariant RowsOk(DeltaRule, start, design[..], candidateRow[..], i, s)
    {
      var inverse := s.invSympd(Gram(design[..], s.p));
      if inverse.None? {
        assert StoppedAt(start, design[..], candidateRow[..], i, s);
        return false;
      }
      var V := inverse.value;
      var found, entryy := ScanD(V, design[i], s.candidates);
      ghost var d, idx := design[..], candidateRow[..];
      if found {
        design[i] := s.candidates[entryy];
        candidateRow[i] := entryy + 1;
      } else {
        candidateRow[i] := TruncToInt(s.initialRows[i]);
      }
      assert design[..] == d[i := design[i]];
      assert candidateRow[..] == idx[i := candidateRow[i]];
      assert RowStep(DeltaRule, d, i, s, design[i], candidateRow[i], TruncToInt(s.initialRows[i]));
      RowsOkStep(DeltaRule, start, d, idx, i, s, design[i], candidateRow[i]);
    }
    ok := true;
  }

  /** The I or A sweep in place; the threshold del carries over from row to row. */
  method SweepVariance(obj: Objective, design: array<Row>, candidateRow: array<int>, s: Setup)
    requires candidateRow.Length == design.Length <= |s.initialRows|
    requires Invertible(design[..], s.p, s.invSympd)
    modifies design, candidateRow
    ensures RowsOk(VarianceRule(obj), old(design[..]), design[..], candidateRow[..], design.Length, s)
    ensures Invertible(design[..], s.p, s.invSympd)
    ensures Variance(obj, design[..], s.p, s.invSympd).value <= Variance(obj, old(design[..]), s.p, s.invSympd).value
  {
    ghost var start := design[..];
    var nTrials := design.Length;
    var del := Variance(obj, design[..], s.p, s.invSympd).value;
    for i := 0 to nTrials
      invariant design[i..] == start[i..]
      invariant RowsOk(VarianceRule(obj), start, design[..], candidateRow[..], i, s)
      invariant Variance(obj, design[..], s.p, s.invSympd) == Some(del)
      invariant del <= Variance(obj, start, s.p, s.invSympd).value
    {
      var found, entryy, newdel := ScanVariance(obj, design[..], i, s.candidates, s.p, s.invSympd, del);
      ghost var d, idx := design[..], candidateRow[..];
      if found {
        design[i] := s.candidates[entryy];
        candidateRow[i] := entryy + 1;
      } else {
        candidateRow[i] := TruncToInt(s.initialRows[i]);
      }
      del := newdel;
      assert design[..] == d[i := design[i]];
      assert candidateRow[..] == idx[i := candidateRow[i]];
      assert RowStep(VarianceRule(obj), d, i, s, design[i], candidateRow[i], TruncToInt(s.initialRows[i]));
      RowsOkStep(VarianceRule(obj), start, d, idx, i, s, design[i], candidateRow[i]);
    }
  }
}
