/**
 The combination of split results (`combine_attn_seqk_parallel` in
 pod_attn/pod_attn/fused_fwd_kernel.h): the lanes of a row reduce the log-sum-exps of its splits,
 and the outputs are averaged. Combining attention over consecutive key ranges is attention over
 all of them.
 */
module Combine {
  import opened Floats
  import opened AttentionSpec
  import opened Allreduce
  import opened OnlineSoftmax

  /** The exponential of a log-sum-exp, which is zero for minus infinity. */
  function Mass(t: Transcendental, lse: F): real {
    if lse.Fin? then t.Exp(lse.r) else 0.0
  }

  ghost function TotalMass(t: Transcendental, lses: seq<F>, k: nat): real
    requires k <= |lses|
  {
    if k == 0 then 0.0 else TotalMass(t, lses, k - 1) + Mass(t, lses[k - 1])
  }

  /** Column `d` of the outputs, weighted by the masses of their splits. */
  ghost function WeightedOut(t: Transcendental, lses: seq<F>, os: seq<seq<F>>, d: nat, k: nat): real
    requires k <= |lses| == |os| && forall i :: 0 <= i < |os| ==> d < |os[i]| && os[i][d].Fin?
  {
    if k == 0 then 0.0
    else WeightedOut(t, lses, os, d, k - 1) + Mass(t, lses[k - 1]) * os[k - 1][d].r
  }

  /** Every split left a number or minus infinity. */
  ghost predicate Scores(lses: seq<F>) {
    forall i :: 0 <= i < |lses| ==> Score(lses[i])
  }

  /** Split results as the tile kernel leaves them. */
  ghost predicate Combinable(lses: seq<F>, os: seq<seq<F>>, cols: nat) {
    && |lses| == |os| && Scores(lses)
    && forall i :: 0 <= i < |os| ==> |os[i]| == cols && forall d :: 0 <= d < cols ==> os[i][d].Fin?
  }

  lemma {:induction false} TotalMassNonNegative(t: Transcendental, lses: seq<F>, k: nat)
    requires t.Lawful() && k <= |lses|
    ensures TotalMass(t, lses, k) >= 0.0
    ensures (exists i :: 0 <= i < k && lses[i].Fin?) ==> TotalMass(t, lses, k) > 0.0
    ensures (forall i :: 0 <= i < k ==> !lses[i].Fin?) ==> TotalMass(t, lses, k) == 0.0
  {
    if k > 0 {
      TotalMassNonNegative(t, lses, k - 1);
      if lses[k - 1].Fin? {
        t.ExpIsPositive(lses[k - 1].r);
      }
    }
  }

  lemma {:induction false} TotalMassPadded(t: Transcendental, lses: seq<F>, pad: seq<F>, k: nat)
    requires k <= |lses| + |pad| && forall i :: 0 <= i < |pad| ==> pad[i] == NegInf
    ensures TotalMass(t, lses + pad, k) == TotalMass(t, lses, if k < |lses| then k else |lses|)
  {
    if k > 0 {
      TotalMassPadded(t, lses, pad, k - 1);
    }
  }

  lemma ExpShifted(t: Transcendental, lse: F, m: real)
    requires t.Lawful() && Score(lse)
    ensures t.ExpF(Sub(lse, Fin(m))) == Fin(t.Exp(-m) * Mass(t, lse))
  {
    if lse.Fin? {
      t.ExpSum(lse.r, -m);
    }
  }

  // ----- The maximum and the sum over the slots

  /** `max` is the largest of the first `k` log-sum-exps. */
  ghost predicate IsMaxOf(lses: seq<F>, k: int, max: F) {
    && Score(max)
    && (exists i :: 0 <= i < k <= |lses| && lses[i] == max)
    && forall i :: 0 <= i < k <= |lses| && lses[i].Fin? ==> max.Fin? && lses[i].r <= max.r
  }

  lemma {:induction false} FoldIsMax(lses: seq<F>, k: nat)
    requires Scores(lses) && 0 < k <= |lses|
    ensures IsMaxOf(lses, k, Fold(lses, 0, k, Max))
  {
    assert Score(lses[k - 1]);
    if k > 1 {
      FoldIsMax(lses, k - 1);
      var before := Fold(lses, 0, k - 1, Max);
      assert Max(before, lses[k - 1]) == before || Max(before, lses[k - 1]) == lses[k - 1];
    }
  }

  /** A value that absorbs every other one absorbs the whole fold. */
  lemma {:induction false} FoldAbsorbs(x: seq<F>, k: nat, op: (F, F) -> F, i: nat)
    requires i < k <= |x| && forall y :: Apply(op, x[i], y) == x[i] && Apply(op, y, x[i]) == x[i]
    ensures Fold(x, 0, k, op) == x[i]
    decreases k
  {
    if i < k - 1 {
      FoldAbsorbs(x, k - 1, op, i);
    }
  }

  /** The largest log-sum-exp, or zero if all are minus infinity. */
  method CombineMax(lses: seq<F>, lanes: nat) returns (lseMax: F)
    requires PowerOfTwo(lanes) && 2 <= lanes <= |lses|
    ensures PosInf in lses ==> lseMax == PosInf
    ensures Scores(lses) ==>
      && lseMax.Fin?
      && (IsMaxOf(lses, |lses|, lseMax) || (lseMax == Fin(0.0) && forall i :: 0 <= i < |lses| ==> lses[i] == NegInf))
  {
    var all := ReduceSlots(lses, lanes, Max);
    lseMax := all[0];
    MaxLaws();
    if Scores(lses) {
      FoldIsMax(lses, |lses|);
    }
    if PosInf in lses {
      ghost var i :| 0 <= i < |lses| && lses[i] == PosInf;
      FoldAbsorbs(lses, |lses|, Max, i);
    }
    if lseMax == NegInf {
      lseMax := Fin(0.0);
    }
  }

  /** The sum of the first `k` masses relative to the maximum. */
  ghost predicate RelativeSum(t: Transcendental, lses: seq<F>, m: real, k: nat, sum: F)
    requires k <= |lses|
  {
    sum == Fin(t.Exp(-m) * TotalMass(t, lses, k))
  }

  /** `expf(lse - lse_max)` of every slot. */
  function Exps(t: Transcendental, lses: seq<F>, lseMax: F): (e: seq<F>)
    ensures |e| == |lses|
  {
    seq(|lses|, k requires 0 <= k < |lses| => t.ExpF(Sub(lses[k], lseMax)))
  }

  lemma Distribute(e: real, a: real, b: real)
    ensures e * a + e * b == e * (a + b)
  {
  }

  lemma RelativeSumNext(t: Transcendental, lses: seq<F>, m: real, k: nat, sum: F, e: F, sum': F)
    requires 0 < k <= |lses| && RelativeSum(t, lses, m, k - 1, sum) && e == Fin(t.Exp(-m) * Mass(t, lses[k - 1]))
    requires sum' == Add(sum, e)
    ensures RelativeSum(t, lses, m, k, sum')
  {
    Distribute(t.Exp(-m), TotalMass(t, lses, k - 1), Mass(t, lses[k - 1]));
  }

  lemma {:induction false} FoldIsRelativeSum(t: Transcendental, lses: seq<F>, m: real, k: nat, sum: F)
    requires t.Lawful() && Scores(lses) && 0 < k <= |lses| && sum == Fold(Exps(t, lses, Fin(m)), 0, k, Add)
    ensures RelativeSum(t, lses, m, k, sum)
    decreases k
  {
    assert Score(lses[k - 1]);
    ExpShifted(t, lses[k - 1], m);
    var e := Exps(t, lses, Fin(m));
    if k == 1 {
      RelativeSumNext(t, lses, m, 1, Fin(0.0), e[0], sum);
    } else {
      var before := Fold(e, 0, k - 1, Add);
      FoldIsRelativeSum(t, lses, m, k - 1, before);
      RelativeSumNext(t, lses, m, k, before, e[k - 1], sum);
    }
  }

  method CombineSum(t: Transcendental, lses: seq<F>, lanes: nat, lseMax: F) returns (lseSum: F)
    requires t.Lawful() && PowerOfTwo(lanes) && 2 <= lanes <= |lses|
    ensures Scores(lses) && lseMax.Fin? ==> RelativeSum(t, lses, lseMax.r, |lses|, lseSum)
    ensures PosInf in lses && lseMax == PosInf ==> lseSum == NaN
  {
    var e := Exps(t, lses, lseMax);
    var all := ReduceSlots(e, lanes, Add);
    lseSum := all[0];
    AddLaws();
    if PosInf in lses && lseMax == PosInf {
      ghost var i :| 0 <= i < |lses| && lses[i] == PosInf;
      assert e[i] == NaN;
      FoldAbsorbs(e, |e|, Add, i);
    }
    if Scores(lses) && lseMax.Fin? {
      FoldIsRelativeSum(t, lses, lseMax.r, |lses|, lseSum);
    }
  }

  // ----- The combined row

  /** `lse` and `out` are the log-sum-exp and the mass-weighted average of the split results. */
  ghost predicate Combined(t: Transcendental, lses: seq<F>, os: seq<seq<F>>, cols: nat, out: seq<F>, lse: F)
    requires Combinable(lses, os, cols)
  {
    var total := TotalMass(t, lses, |lses|);
    && |out| == cols
    && (if total == 0.0 then
          lse == PosInf && forall d :: 0 <= d < cols ==> out[d] == Fin(0.0)
        else
          && lse == Fin(t.Log(total))
          && forall d :: 0 <= d < cols ==> out[d] == Fin(WeightedOut(t, lses, os, d, |lses|) / total))
  }

  /** The combined log-sum-exp of splits with this total mass. */
  ghost function LogMass(t: Transcendental, total: real): F {
    if total == 0.0 then PosInf else Fin(t.Log(total))
  }

  ghost predicate IsLogSum(t: Transcendental, total: real, logSum: F) {
    logSum == LogMass(t, total)
  }

  lemma Unscale(e: real, e': real, total: real)
    requires e * e' == 1.0 && e' > 0.0 && total > 0.0
    ensures e' * total > 0.0 && e * (e' * total) == total
  {
    assert e * (e' * total) == (e * e') * total;
  }

  /** The combined log-sum-exp, from the sum relative to the maximum. */
  lemma LogSum(t: Transcendental, lses: seq<F>, m: real, sum: F)
    requires t.Lawful() && RelativeSum(t, lses, m, |lses|, sum)
    ensures IsLogSum(t, TotalMass(t, lses, |lses|),
                     if sum == Fin(0.0) || sum.NaN? then PosInf else Add(t.LogF(sum), Fin(m)))
  {
    var total := TotalMass(t, lses, |lses|);
    TotalMassNonNegative(t, lses, |lses|);
    t.ExpInverse(m);
    t.ExpIsPositive(-m);
    if total > 0.0 {
      Unscale(t.Exp(m), t.Exp(-m), total);
      t.LogOfScaled(m, sum.r, total);
    }
  }

  /** What one unit of mass counts for in the combined output. */
  ghost function Share(t: Transcendental, total: real): real {
    if total == 0.0 then 0.0 else t.Exp(-t.Log(total))
  }

  lemma SplitScale(t: Transcendental, lse: F, logSum: F, total: real)
    requires t.Lawful() && Score(lse) && IsLogSum(t, total, logSum)
    requires total == 0.0 ==> lse == NegInf
    ensures t.ExpF(Sub(lse, logSum)) == Fin(Share(t, total) * Mass(t, lse))
  {
    if total != 0.0 {
      ExpShifted(t, lse, t.Log(total));
    }
  }

  ghost predicate ColumnSoFar(t: Transcendental, lses: seq<F>, os: seq<seq<F>>, cols: nat, share: real, k: nat,
                              d: nat, o: F)
    requires Combinable(lses, os, cols) && k <= |lses| && d < cols
  {
    o == Fin(share * WeightedOut(t, lses, os, d, k))
  }

  /** The outputs of the first `k` splits, scaled and added up. */
  ghost predicate OutSoFar(t: Transcendental, lses: seq<F>, os: seq<seq<F>>, cols: nat, k: nat, out: seq<F>)
    requires Combinable(lses, os, cols) && k <= |lses|
  {
    var share := Share(t, TotalMass(t, lses, |lses|));
    |out| == cols && forall d :: 0 <= d < cols ==> ColumnSoFar(t, lses, os, cols, share, k, d, out[d])
  }

  function AddScaled(out: seq<F>, scale: F, o: seq<F>): seq<F>
    requires |out| == |o|
  {
    seq(|out|, d requires 0 <= d < |out| => Add(out[d], Mul(scale, o[d])))
  }

  lemma AddShare(inv: real, a: real, b: real, o: real, sum: real, x: F, scale: F, y: F)
    requires sum == a + b * o && x == Fin(inv * a) && scale == Fin(inv * b) && y == Fin(o)
    ensures Add(x, Mul(scale, y)) == Fin(inv * sum)
  {
    assert (inv * b) * o == inv * (b * o);
    assert inv * sum == inv * a + inv * (b * o);
  }

  /** One column of the output after one more split. */
  lemma OutColumnStep(t: Transcendental, lses: seq<F>, os: seq<seq<F>>, cols: nat, share: real, k: nat, d: nat, o: F,
                      scale: F)
    requires Combinable(lses, os, cols) && k < |lses| && d < cols
    requires scale == Fin(share * Mass(t, lses[k])) && ColumnSoFar(t, lses, os, cols, share, k, d, o)
    ensures ColumnSoFar(t, lses, os, cols, share, k + 1, d, Add(o, Mul(scale, os[k][d])))
  {
    AddShare(share, WeightedOut(t, lses, os, d, k), Mass(t, lses[k]), os[k][d].r,
             WeightedOut(t, lses, os, d, k + 1), o, scale, os[k][d]);
  }

  lemma ScaleOfSplit(t: Transcendental, lses: seq<F>, k: nat, logSum: F)
    requires t.Lawful() && k < |lses| && forall i :: 0 <= i < |lses| ==> Score(lses[i])
    requires IsLogSum(t, TotalMass(t, lses, |lses|), logSum)
    ensures t.ExpF(Sub(lses[k], logSum)) == Fin(Share(t, TotalMass(t, lses, |lses|)) * Mass(t, lses[k]))
  {
    TotalMassNonNegative(t, lses, |lses|);
    SplitScale(t, lses[k], logSum, TotalMass(t, lses, |lses|));
  }

  lemma OutSoFarStep(t: Transcendental, lses: seq<F>, os: seq<seq<F>>, cols: nat, k: nat, out: seq<F>, logSum: F)
    requires t.Lawful() && Combinable(lses, os, cols) && k < |lses|
    requires IsLogSum(t, TotalMass(t, lses, |lses|), logSum) && OutSoFar(t, lses, os, cols, k, out)
    ensures OutSoFar(t, lses, os, cols, k + 1, AddScaled(out, t.ExpF(Sub(lses[k], logSum)), os[k]))
  {
    var share, scale := Share(t, TotalMass(t, lses, |lses|)), t.ExpF(Sub(lses[k], logSum));
    var out' := AddScaled(out, scale, os[k]);
    ScaleOfSplit(t, lses, k, logSum);
    forall d | 0 <= d < cols
      ensures ColumnSoFar(t, lses, os, cols, share, k + 1, d, out'[d])
    {
      assert ColumnSoFar(t, lses, os, cols, share, k, d, out[d]);
      OutColumnStep(t, lses, os, cols, share, k, d, out[d], scale);
    }
  }

  lemma OutSoFarStart(t: Transcendental, lses: seq<F>, os: seq<seq<F>>, cols: nat)
    requires Combinable(lses, os, cols)
    ensures OutSoFar(t, lses, os, cols, 0, seq(cols, _ => Fin(0.0)))
  {
  }

  lemma NoNumbersStay(out: seq<F>, scale: F, o: seq<F>)
    requires |out| == |o| && (NoNumbers(out) || NoNumbers(o))
    ensures NoNumbers(AddScaled(out, scale, o))
  {
  }

  lemma PaddedLogSum(t: Transcendental, lses: seq<F>, pad: seq<F>, m: real, sum: F)
    requires t.Lawful() && RelativeSum(t, lses + pad, m, |lses + pad|, sum)
    requires forall i :: 0 <= i < |pad| ==> pad[i] == NegInf
    ensures IsLogSum(t, TotalMass(t, lses, |lses|),
                     if sum == Fin(0.0) || sum.NaN? then PosInf else Add(t.LogF(sum), Fin(m)))
  {
    TotalMassPadded(t, lses, pad, |lses + pad|);
    LogSum(t, lses + pad, m, sum);
  }

  /** The combined log-sum-exp of a row, from `slots` slots, those past the last split holding minus infinity. */
  method CombineLse(t: Transcendental, lses: seq<F>, lanes: nat, slots: nat) returns (lse: F)
    requires t.Lawful() && PowerOfTwo(lanes) && 2 <= lanes <= slots && |lses| <= slots
    ensures Scores(lses) ==> IsLogSum(t, TotalMass(t, lses, |lses|), lse)
    ensures PosInf in lses ==> lse == PosInf
  {
    var pad := seq(slots - |lses|, _ => NegInf);
    var lseAccum := lses + pad;
    var lseMax := CombineMax(lseAccum, lanes);
    var lseSum := CombineSum(t, lseAccum, lanes, lseMax);
    lse := if lseSum == Fin(0.0) || lseSum.NaN? then PosInf else Add(t.LogF(lseSum), lseMax);
    if Scores(lses) {
      assert Scores(lseAccum);
      PaddedLogSum(t, lses, pad, lseMax.r, lseSum);
    }
  }

  lemma Quotient(inv: real, w: real, total: real)
    requires total > 0.0 && total * inv == 1.0
    ensures inv * w == w / total
  {
    var q := w / total;
    assert w == q * total;
    assert inv * (q * total) == q * (total * inv);
  }

  lemma CombinedFromShares(t: Transcendental, lses: seq<F>, os: seq<seq<F>>, cols: nat, out: seq<F>, lse: F)
    requires t.Lawful() && Combinable(lses, os, cols)
    requires IsLogSum(t, TotalMass(t, lses, |lses|), lse) && OutSoFar(t, lses, os, cols, |lses|, out)
    ensures Combined(t, lses, os, cols, out, lse)
  {
    var total := TotalMass(t, lses, |lses|);
    TotalMassNonNegative(t, lses, |lses|);
    if total > 0.0 {
      assert t.ExpUndoesLog(total);
      t.ExpInverse(t.Log(total));
      forall d | 0 <= d < cols
        ensures out[d] == Fin(WeightedOut(t, lses, os, d, |lses|) / total)
      {
        Quotient(t.Exp(-t.Log(total)), WeightedOut(t, lses, os, d, |lses|), total);
      }
    }
  }

  /**
   What the combination leaves of a row: the combined result, the logarithm of the total mass or
   plus infinity, and no number if some split left none.
   */
  ghost predicate RowCombined(t: Transcendental, lses: seq<F>, os: seq<seq<F>>, cols: nat, out: seq<F>, lse: F) {
    && |out| == cols
    && (Combinable(lses, os, cols) ==> Combined(t, lses, os, cols, out, lse))
    && (Scores(lses) ==> IsLogSum(t, TotalMass(t, lses, |lses|), lse))
    && (PosInf in lses ==> lse == PosInf)
    && ((exists k :: 0 <= k < |os| && NoNumbers(os[k])) ==> NoNumbers(out))
  }

  /** `combine_attn_seqk_parallel` for one row. */
  method CombineRow(t: Transcendental, lses: seq<F>, os: seq<seq<F>>, cols: nat, lanes: nat, slots: nat)
    returns (out: seq<F>, lse: F)
    requires t.Lawful() && |lses| == |os| <= slots && PowerOfTwo(lanes) && 2 <= lanes <= slots
    requires forall i :: 0 <= i < |os| ==> |os[i]| == cols
    ensures RowCombined(t, lses, os, cols, out, lse)
  {
    lse := CombineLse(t, lses, lanes, slots);
    ghost var ok := Combinable(lses, os, cols);
    out := seq(cols, _ => Fin(0.0));
    if ok {
      OutSoFarStart(t, lses, os, cols);
    }
    for split := 0 to |lses|
      invariant |out| == cols && (ok ==> OutSoFar(t, lses, os, cols, split, out))
      invariant (exists k :: 0 <= k < split && NoNumbers(os[k])) ==> NoNumbers(out)
    {
      if ok {
        OutSoFarStep(t, lses, os, cols, split, out, lse);
      }
      if NoNumbers(out) || NoNumbers(os[split]) {
        NoNumbersStay(out, t.ExpF(Sub(lses[split], lse)), os[split]);
      }
      out := AddScaled(out, t.ExpF(Sub(lses[split], lse)), os[split]);
    }
    if ok {
      CombinedFromShares(t, lses, os, cols, out, lse);
    }
  }

  // ----- Combined attention

  /** The results of every split are the row's attention over the keys between consecutive cuts. */
  ghost predicate SplitParts(sc: Scaling, row: Row, v: seq<seq<real>>, cols: nat, cuts: seq<int>, lses: seq<F>,
                             os: seq<seq<F>>)
    requires Matrix(v, |row.s|, cols)
  {
    && |cuts| == |lses| + 1 && |lses| == |os|
    && forall k :: 0 <= k < |lses| ==>
      cuts[k] <= cuts[k + 1] && IsAttention(sc, row, v, cols, cuts[k], cuts[k + 1], NegInf, os[k], lses[k])
  }

  lemma PartsCombinable(sc: Scaling, row: Row, v: seq<seq<real>>, cols: nat, cuts: seq<int>, lses: seq<F>,
                        os: seq<seq<F>>)
    requires Matrix(v, |row.s|, cols) && SplitParts(sc, row, v, cols, cuts, lses, os)
    ensures Combinable(lses, os, cols)
  {
    forall k | 0 <= k < |lses|
      ensures Score(lses[k]) && |os[k]| == cols && forall d :: 0 <= d < cols ==> os[k][d].Fin?
    {
      assert IsAttention(sc, row, v, cols, cuts[k], cuts[k + 1], NegInf, os[k], lses[k]);
    }
  }

  lemma MulDiv(d: real, n: real)
    requires d > 0.0
    ensures d * (n / d) == n
  {
  }

  /** A split's mass is the sum of its weights. */
  lemma PartMass(sc: Scaling, row: Row, v: seq<seq<real>>, cols: nat, lo: int, hi: int, o: seq<F>, lse: F)
    requires sc.t.Lawful() && Matrix(v, |row.s|, cols)
    requires IsAttention(sc, row, v, cols, lo, hi, NegInf, o, lse)
    ensures Mass(sc.t, lse) == Den(sc, row, 0.0, lo, hi)
  {
    if row.SeesNone(lo, hi) {
      NumInvisible(sc, row, Ones(|row.s|), 0.0, lo, hi);
    } else {
      assert sc.t.ExpUndoesLog(Den(sc, row, 0.0, lo, hi));
    }
  }

  /** A split's output, weighted by its mass, is the weighted sum of its values. */
  lemma PartOutput(sc: Scaling, row: Row, v: seq<seq<real>>, cols: nat, lo: int, hi: int, o: seq<F>, lse: F, d: nat)
    requires sc.t.Lawful() && Matrix(v, |row.s|, cols) && d < cols
    requires IsAttention(sc, row, v, cols, lo, hi, NegInf, o, lse)
    ensures o[d].Fin? && Mass(sc.t, lse) * o[d].r == Num(sc, row, Column(v, d), 0.0, lo, hi)
  {
    PartMass(sc, row, v, cols, lo, hi, o, lse);
    if row.SeesNone(lo, hi) {
      NumInvisible(sc, row, Column(v, d), 0.0, lo, hi);
    } else {
      MulDiv(Den(sc, row, 0.0, lo, hi), Num(sc, row, Column(v, d), 0.0, lo, hi));
    }
  }

  /** The masses of the first `k` splits add up to the sum of the weights over their keys. */
  lemma {:induction false} MassesAddUp(sc: Scaling, row: Row, v: seq<seq<real>>, cols: nat, cuts: seq<int>,
                                       lses: seq<F>, os: seq<seq<F>>, k: nat)
    requires sc.t.Lawful() && Matrix(v, |row.s|, cols) && SplitParts(sc, row, v, cols, cuts, lses, os)
    requires k <= |lses|
    ensures cuts[0] <= cuts[k] && TotalMass(sc.t, lses, k) == Den(sc, row, 0.0, cuts[0], cuts[k])
  {
    if k > 0 {
      MassesAddUp(sc, row, v, cols, cuts, lses, os, k - 1);
      assert cuts[k - 1] <= cuts[k - 1 + 1];
      PartMass(sc, row, v, cols, cuts[k - 1], cuts[k], os[k - 1], lses[k - 1]);
      NumSplits(sc, row, Ones(|row.s|), 0.0, cuts[0], cuts[k - 1], cuts[k]);
    }
  }

  lemma WeightedOutNext(sc: Scaling, row: Row, v: seq<seq<real>>, cols: nat, lo: int, hi: int, lses: seq<F>,
                        os: seq<seq<F>>, d: nat, k: nat)
    requires sc.t.Lawful() && Matrix(v, |row.s|, cols) && Combinable(lses, os, cols) && k < |lses| && d < cols
    requires IsAttention(sc, row, v, cols, lo, hi, NegInf, os[k], lses[k])
    ensures WeightedOut(sc.t, lses, os, d, k + 1)
            == WeightedOut(sc.t, lses, os, d, k) + Num(sc, row, Column(v, d), 0.0, lo, hi)
  {
    PartOutput(sc, row, v, cols, lo, hi, os[k], lses[k], d);
  }

  /** Likewise their weighted outputs, column by column. */
  lemma {:induction false} OutputsAddUp(sc: Scaling, row: Row, v: seq<seq<real>>, cols: nat, cuts: seq<int>,
                                        lses: seq<F>, os: seq<seq<F>>, d: nat, k: nat)
    requires sc.t.Lawful() && Matrix(v, |row.s|, cols) && SplitParts(sc, row, v, cols, cuts, lses, os)
    requires Combinable(lses, os, cols) && k <= |lses| && d < cols
    ensures cuts[0] <= cuts[k]
    ensures WeightedOut(sc.t, lses, os, d, k) == Num(sc, row, Column(v, d), 0.0, cuts[0], cuts[k])
  {
    if k > 0 {
      OutputsAddUp(sc, row, v, cols, cuts, lses, os, d, k - 1);
      assert cuts[k - 1] <= cuts[k - 1 + 1];
      WeightedOutNext(sc, row, v, cols, cuts[k - 1], cuts[k], lses, os, d, k - 1);
      NumSplits(sc, row, Column(v, d), 0.0, cuts[0], cuts[k - 1], cuts[k]);
    }
  }

  /** Combining the splits' attention gives the attention over the keys of all splits. */
  lemma CombinedIsAttention(sc: Scaling, row: Row, v: seq<seq<real>>, cols: nat, cuts: seq<int>, lses: seq<F>,
                            os: seq<seq<F>>, out: seq<F>, lse: F)
    requires sc.t.Lawful() && Matrix(v, |row.s|, cols) && SplitParts(sc, row, v, cols, cuts, lses, os)
    requires Combinable(lses, os, cols) && Combined(sc.t, lses, os, cols, out, lse)
    ensures IsAttention(sc, row, v, cols, cuts[0], cuts[|lses|], PosInf, out, lse)
  {
    MassesAddUp(sc, row, v, cols, cuts, lses, os, |lses|);
    forall d | 0 <= d < cols
      ensures WeightedOut(sc.t, lses, os, d, |lses|) == Num(sc, row, Column(v, d), 0.0, cuts[0], cuts[|lses|])
    {
      OutputsAddUp(sc, row, v, cols, cuts, lses, os, d, |lses|);
    }
    DenNonNegative(sc, row, 0.0, cuts[0], cuts[|lses|]);
    if row.SeesNone(cuts[0], cuts[|lses|]) {
      NumInvisible(sc, row, Ones(|row.s|), 0.0, cuts[0], cuts[|lses|]);
    }
  }
}
