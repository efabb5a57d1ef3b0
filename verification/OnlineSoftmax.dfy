/**
 The online softmax (pod_attn/pod_attn/softmax.h): a running maximum, running sums and an output
 accumulator per query row, rescaled whenever a block of keys raises the maximum. The four lanes
 of a quad share the columns of a row: they agree on the maximum after every block, but each keeps
 the sum of its own columns until the end. `RescaleRow` is what the code does to one row, on
 floats with infinities and NaN; `RescaleStep` shows that it extends the exact partial sums of the
 specification.
 */
module OnlineSoftmax {
  import opened Floats
  import opened AttentionSpec
  import opened Allreduce

  /** The running maximum, the sum of each lane, and the accumulator. */
  datatype RowState = RowState(max: F, sums: seq<F>, acc: seq<F>)

  function FoldMax(acc: F, s: seq<F>): F
    decreases |s|
  {
    if s == [] then acc else Max(FoldMax(acc, s[..|s| - 1]), s[|s| - 1])
  }

  function FoldAdd(acc: F, s: seq<F>): F
    decreases |s|
  {
    if s == [] then acc else Add(FoldAdd(acc, s[..|s| - 1]), s[|s| - 1])
  }

  function FoldDot(acc: F, p: seq<F>, x: seq<real>): F
    requires |p| == |x|
    decreases |p|
  {
    if p == [] then acc
    else
      var k := |p| - 1;
      Add(FoldDot(acc, p[..k], x[..k]), Mul(p[k], Fin(x[k])))
  }

  // ----- Quads

  function Quad(x: F): (lanes: seq<F>)
    ensures |lanes| == 4
  {
    [x, x, x, x]
  }

  /** The lane that holds each of the first `n` columns: two of every eight. */
  function Holders(n: nat): (owner: seq<nat>)
    ensures Owned(owner, n, 4)
  {
    seq(n, k requires 0 <= k < n => (k / 2) % 4)
  }

  lemma QuadSize()
    ensures PowerOfTwo(4)
  {
    assert PowerOfTwo(2);
  }

  /** `Allreduce<4>::run` on a value of each lane. */
  function QuadAllreduce(lanes: seq<F>, op: (F, F) -> F): (r: seq<F>)
    requires |lanes| == 4
    ensures |r| == 4
  {
    QuadSize();
    Run(lanes, 4, op)
  }

  /**
   `reduce_max`: each lane folds its own columns, two of every eight, and the quad joins them. With
   `zeroInit` a lane starts from its first column; NaN, which `max` drops, stands for no start value.
   */
  function QuadMax(zeroInit: bool, prev: F, s: seq<F>): (lanes: seq<F>)
    ensures |lanes| == 4
  {
    QuadAllreduce(Spread(Quad(if zeroInit then NaN else prev), Holders(|s|), s, Max), Max)
  }

  /** The maximum over all columns of a row. */
  function ReduceMax(zeroInit: bool, prev: F, s: seq<F>): F {
    FoldMax(if zeroInit then NaN else prev, s)
  }

  /** `reduce_sum`: each lane adds its own columns, and the quad does not join them. */
  function ReduceSums(zeroInit: bool, sums: seq<F>, p: seq<F>): (r: seq<F>)
    requires |sums| == 4
    ensures |r| == 4
  {
    Spread(if zeroInit then Quad(Fin(0.0)) else sums, Holders(|p|), p, Add)
  }

  /** The sum of the lanes. */
  function LaneTotal(sums: seq<F>): F
    requires |sums| == 4
  {
    Add(Add(Add(sums[0], sums[1]), sums[2]), sums[3])
  }

  lemma MaxLaws()
    ensures Associates(Max) && Commutes(Max)
  {
    forall a, b, c
      ensures AssociatesAt(Max, a, b, c)
    {
      assert Max(Max(a, b), c) == Max(a, Max(b, c));
    }
    forall a, b
      ensures CommutesAt(Max, a, b)
    {
    }
  }

  lemma AddLaws()
    ensures Associates(Add) && Commutes(Add)
  {
    forall a, b, c
      ensures AssociatesAt(Add, a, b, c)
    {
      assert Add(Add(a, b), c) == Add(a, Add(b, c));
    }
    forall a, b
      ensures CommutesAt(Add, a, b)
    {
    }
  }

  lemma {:induction false} FoldFromMax(acc: F, s: seq<F>)
    ensures FoldFrom(acc, s, Max) == FoldMax(acc, s)
    decreases |s|
  {
    if s != [] {
      FoldFromMax(acc, s[..|s| - 1]);
    }
  }

  lemma {:induction false} FoldFromAdd(acc: F, s: seq<F>)
    ensures FoldFrom(acc, s, Add) == FoldAdd(acc, s)
    decreases |s|
  {
    if s != [] {
      FoldFromAdd(acc, s[..|s| - 1]);
    }
  }

  lemma FoldOfFour(lanes: seq<F>, op: (F, F) -> F)
    requires |lanes| == 4
    ensures Fold(lanes, 0, 4, op) == Apply(op, Apply(op, Apply(op, lanes[0], lanes[1]), lanes[2]), lanes[3])
  {
    assert Fold(lanes, 0, 3, op) == Apply(op, Fold(lanes, 0, 2, op), lanes[2]);
    assert Fold(lanes, 0, 2, op) == Apply(op, Fold(lanes, 0, 1, op), lanes[1]);
  }

  /** All lanes of the quad get the maximum over all columns of the row. */
  lemma QuadMaxIsMax(zeroInit: bool, prev: F, s: seq<F>, lane: nat)
    requires lane < 4
    ensures QuadMax(zeroInit, prev, s)[lane] == ReduceMax(zeroInit, prev, s)
  {
    var start := if zeroInit then NaN else prev;
    QuadSize();
    MaxLaws();
    ReduceFoldsAll(Quad(start), Holders(|s|), s, Max, lane);
    FoldOfFour(Quad(start), Max);
    FoldFromMax(start, s);
  }

  /** The sums of the lanes add up to the sum over all columns. */
  lemma ReduceSumsTotal(zeroInit: bool, sums: seq<F>, p: seq<F>)
    requires |sums| == 4
    ensures LaneTotal(ReduceSums(zeroInit, sums, p)) == FoldAdd(if zeroInit then Fin(0.0) else LaneTotal(sums), p)
  {
    var start := if zeroInit then Quad(Fin(0.0)) else sums;
    AddLaws();
    SpreadFolds(start, Holders(|p|), p, Add);
    FoldOfFour(start, Add);
    FoldOfFour(ReduceSums(zeroInit, sums, p), Add);
    FoldFromAdd(LaneTotal(start), p);
  }

  /** All lanes of the quad get the sum of the lanes. */
  lemma QuadSumIsTotal(sums: seq<F>, lane: nat)
    requires |sums| == 4 && lane < 4
    ensures QuadAllreduce(sums, Add)[lane] == LaneTotal(sums)
  {
    QuadSize();
    AddLaws();
    RunFoldsAll(sums, 4, Add, lane);
    FoldOfFour(sums, Add);
  }

  // ----- One row

  function MaxScaled(max: F, scaleLog2: real): F {
    if max == NegInf then Fin(0.0) else Mul(max, Fin(scaleLog2))
  }

  function Prob(t: Transcendental, x: F, max: F, scaleLog2: real): F {
    t.Exp2F(Sub(Mul(x, Fin(scaleLog2)), MaxScaled(max, scaleLog2)))
  }

  /** `scale_apply_exp2` on one row: `exp2(s * scale - max * scale)`, with 0 for a maximum of minus infinity. */
  function ScaleApplyExp2(t: Transcendental, s: seq<F>, max: F, scaleLog2: real): (p: seq<F>)
    ensures |p| == |s| && forall k {:trigger p[k]} :: 0 <= k < |s| ==> p[k] == Prob(t, s[k], max, scaleLog2)
  {
    seq(|s|, k requires 0 <= k < |s| => Prob(t, s[k], max, scaleLog2))
  }

  function ScaleAcc(acc: seq<F>, f: F): (r: seq<F>)
    ensures |r| == |acc| && forall d {:trigger r[d]} :: 0 <= d < |r| ==> r[d] == Mul(acc[d], f)
  {
    seq(|acc|, d requires 0 <= d < |acc| => Mul(acc[d], f))
  }

  /** The maximum that the old one is compared with. */
  function MaxCur(checkInf: bool, max: F): F {
    if checkInf && max == NegInf then Fin(0.0) else max
  }

  /** The factor by which the sums so far are rescaled. */
  function RescaleFactor(t: Transcendental, checkInf: bool, prev: F, max: F, scaleLog2: real): F {
    t.Exp2F(Mul(Sub(prev, MaxCur(checkInf, max)), Fin(scaleLog2)))
  }

  /** One row of `softmax_rescale_o`: the new state, and the scores turned into probabilities. */
  function RescaleRow(t: Transcendental, isFirst: bool, checkInf: bool, st: RowState, s: seq<F>, scaleLog2: real)
    : (r: (RowState, seq<F>))
    requires |st.sums| == 4
    ensures |r.1| == |s| && |r.0.acc| == |st.acc| && |r.0.sums| == 4
  {
    var max := ReduceMax(isFirst, st.max, s);
    var p := ScaleApplyExp2(t, s, max, scaleLog2);
    if isFirst then
      (RowState(max, ReduceSums(true, st.sums, p), st.acc), p)
    else
      var f := RescaleFactor(t, checkInf, st.max, max, scaleLog2);
      (RowState(max, ReduceSums(false, ScaleAcc(st.sums, f), p), ScaleAcc(st.acc, f)), p)
  }

  /** One row of the product of the probabilities with a block of values, added to the accumulator. */
  function GemmRow(acc: seq<F>, p: seq<F>, v: seq<seq<real>>): (r: seq<F>)
    requires |v| == |p| && forall k :: 0 <= k < |v| ==> |v[k]| == |acc|
    ensures |r| == |acc| && forall d {:trigger r[d]} :: 0 <= d < |r| ==> r[d] == FoldDot(acc[d], p, Column(v, d))
  {
    seq(|acc|, d requires 0 <= d < |acc| => FoldDot(acc[d], p, Column(v, d)))
  }

  /** The log-sum-exp of a row without visible keys. */
  function NoKeys(split: bool): F {
    if split then NegInf else PosInf
  }

  /** One row of `normalize_softmax_lse`, given the sum of the quad: the output and the log-sum-exp. */
  function NormalizeBy(t: Transcendental, split: bool, max: F, sum: F, acc: seq<F>, scale: real): (r: (seq<F>, F))
    ensures |r.0| == |acc|
  {
    if sum == Fin(0.0) || sum.NaN? then
      (ScaleAcc(acc, Fin(1.0)), NoKeys(split))
    else
      (ScaleAcc(acc, Recip(sum)), Add(Mul(max, Fin(scale)), t.LogF(sum)))
  }

  function NormalizeRow(t: Transcendental, split: bool, st: RowState, scale: real): (r: (seq<F>, F))
    requires |st.sums| == 4
    ensures |r.0| == |st.acc|
  {
    NormalizeBy(t, split, st.max, LaneTotal(st.sums), st.acc, scale)
  }

  // ----- What the state means

  /** The score that weights are relative to. */
  function Reference(max: F): real {
    if max.Fin? then max.r else 0.0
  }

  ghost predicate ColumnIs(c: Scaling, row: Row, x: seq<real>, m: real, lo: int, hi: int, a: F) {
    a == Fin(Num(c, row, x, m, lo, hi))
  }

  ghost predicate ColumnsAre(c: Scaling, row: Row, v: seq<seq<real>>, cols: nat, m: real, lo: int, hi: int, acc: seq<F>)
    requires Matrix(v, |row.s|, cols)
  {
    |acc| == cols && forall d :: 0 <= d < cols ==> ColumnIs(c, row, Column(v, d), m, lo, hi, acc[d])
  }

  /** The maximum of the visible scores of `[lo, hi)`, or minus infinity if there are none. */
  ghost predicate IsMax(row: Row, lo: int, hi: int, max: F) {
    if max == NegInf then row.SeesNone(lo, hi) else max.Fin? && row.MaxVisible(lo, hi, max.r)
  }

  /** `st` holds the exact sums over the visible keys of `[lo, hi)`, relative to their largest score. */
  ghost predicate Represents(c: Scaling, row: Row, v: seq<seq<real>>, cols: nat, lo: int, hi: int, st: RowState)
    requires Matrix(v, |row.s|, cols)
  {
    && IsMax(row, lo, hi, st.max)
    && |st.sums| == 4 && ColumnIs(c, row, Ones(|row.s|), Reference(st.max), lo, hi, LaneTotal(st.sums))
    && ColumnsAre(c, row, v, cols, Reference(st.max), lo, hi, st.acc)
  }

  /** A block of masked scores starting at key `lo`: the row's scores where visible, minus infinity elsewhere. */
  ghost predicate MaskedBlock(row: Row, lo: int, s: seq<F>) {
    forall k :: 0 <= k < |s| ==> s[k] == if row.Sees(lo + k) then Fin(row.s[lo + k]) else NegInf
  }

  /** The value rows of a block starting at key `lo`, agreeing with `v` on every key that exists. */
  ghost predicate ValueBlock(v: seq<seq<real>>, cols: nat, lo: int, blk: seq<seq<real>>) {
    forall k :: 0 <= k < |blk| ==>
      |blk[k]| == cols && (0 <= lo + k < |v| ==> blk[k] == v[lo + k])
  }

  /** A masked score times the scale is minus infinity, or there is no masked score. */
  ghost predicate Safe(c: Scaling, row: Row, lo: int, hi: int) {
    c.scale > 0.0 || forall j :: lo <= j < hi ==> row.Sees(j)
  }

  function ScaleLog2(c: Scaling): real {
    c.scale * c.t.log2e
  }

  lemma ScaleLog2Sign(c: Scaling)
    requires c.t.Lawful()
    ensures c.scale > 0.0 <==> ScaleLog2(c) > 0.0
    ensures c.scale == 0.0 <==> ScaleLog2(c) == 0.0
  {
  }

  /** The values a masked score or a running maximum can take. */
  predicate Score(x: F) {
    x.NegInf? || x.Fin?
  }

  // ----- The maximum

  lemma {:induction false} FoldMaxMeaning(acc: F, s: seq<F>)
    requires (acc.NaN? || Score(acc)) && forall k :: 0 <= k < |s| ==> Score(s[k])
    ensures var m := FoldMax(acc, s);
            && (s != [] || Score(acc) ==> Score(m))
            && (m == acc || m in s)
            && (acc.Fin? ==> m.Fin? && acc.r <= m.r)
            && forall k :: 0 <= k < |s| && s[k].Fin? ==> m.Fin? && s[k].r <= m.r
    decreases |s|
  {
    if s != [] {
      FoldMaxMeaning(acc, s[..|s| - 1]);
    }
  }

  /** The running maximum after a block is the largest visible score of the block and of the keys before it. */
  lemma ReduceMaxMeaning(row: Row, lo: int, mid: int, hi: int, isFirst: bool, prev: F, s: seq<F>)
    requires s != [] && mid == lo + |s| && mid <= hi
    requires MaskedBlock(row, lo, s)
    requires isFirst ==> mid == hi
    requires !isFirst ==> IsMax(row, mid, hi, prev)
    ensures IsMax(row, lo, hi, ReduceMax(isFirst, prev, s))
  {
    var start := if isFirst then NaN else prev;
    var m := FoldMax(start, s);
    FoldMaxMeaning(start, s);
    forall j | lo <= j < hi && row.Sees(j)
      ensures m.Fin? && row.s[j] <= m.r
    {
      if j < mid {
        assert s[j - lo] == Fin(row.s[lo + (j - lo)]);
      }
    }
    if m.Fin? && m != start {
      var k :| 0 <= k < |s| && s[k] == m;
      assert row.Sees(lo + k) && row.s[lo + k] == m.r;
    }
  }

  // ----- Exponentials of the scores

  lemma ScoreExp(c: Scaling, s: real, m: real, z: real)
    requires z == s * ScaleLog2(c) - m * ScaleLog2(c)
    ensures c.t.Exp2(z) == c.Exp(s - m)
  {
    assert z == c.t.ToBase2(c.Scaled(s - m));
  }

  /** The exponent of a score is a number or minus infinity, never the difference of two infinities. */
  lemma ExponentDefined(x: F, max: F, l: real)
    requires Score(max) && (x.NegInf? ==> l > 0.0) && (x.NegInf? || x.Fin?)
    ensures Score(Sub(Mul(x, Fin(l)), MaxScaled(max, l)))
  {
  }

  lemma MaskedEntry(t: Transcendental, max: F, l: real)
    requires Score(max) && l > 0.0
    ensures Prob(t, NegInf, max, l) == Fin(0.0)
  {
  }

  lemma VisibleEntry(c: Scaling, x: real, m: real)
    ensures Prob(c.t, Fin(x), Fin(m), ScaleLog2(c)) == Fin(c.Exp(x - m))
  {
    var l := ScaleLog2(c);
    var z := x * l + -(m * l);
    ScoreExp(c, x, m, z);
    assert Sub(Mul(Fin(x), Fin(l)), Mul(Fin(m), Fin(l))) == Fin(z);
  }

  /** The entries of `p` are the weights of the keys from `lo` on, relative to `m`. */
  ghost predicate AreWeights(c: Scaling, row: Row, m: real, lo: int, p: seq<F>) {
    forall k :: 0 <= k < |p| ==> p[k] == Fin(Weight(c, row, m, lo + k))
  }

  /** Every probability of a block is the exact weight of its key, relative to the maximum. */
  lemma BlockProbs(c: Scaling, row: Row, lo: int, s: seq<F>, max: F)
    requires c.t.Lawful() && MaskedBlock(row, lo, s) && Safe(c, row, lo, lo + |s|)
    requires if max == NegInf then row.SeesNone(lo, lo + |s|) else max.Fin?
    ensures AreWeights(c, row, Reference(max), lo, ScaleApplyExp2(c.t, s, max, ScaleLog2(c)))
  {
    var p := ScaleApplyExp2(c.t, s, max, ScaleLog2(c));
    forall k | 0 <= k < |s|
      ensures p[k] == Fin(Weight(c, row, Reference(max), lo + k))
    {
      if row.Sees(lo + k) {
        VisibleEntry(c, row.s[lo + k], max.r);
      } else {
        ScaleLog2Sign(c);
        MaskedEntry(c.t, max, ScaleLog2(c));
      }
    }
  }

  // ----- The sums

  /** The entries of `y` are those of `x` for the visible keys from `lo` on. */
  ghost predicate AgreesOn(row: Row, x: seq<real>, lo: int, y: seq<real>) {
    |x| == |row.s| && forall k :: 0 <= k < |y| && row.Sees(lo + k) ==> y[k] == x[lo + k]
  }

  lemma LastTerm(c: Scaling, row: Row, x: seq<real>, m: real, lo: int, j: int, p: F, y: real) returns (term: real)
    requires lo <= j && p == Fin(Weight(c, row, m, j)) && |x| == |row.s| && (row.Sees(j) ==> y == x[j])
    ensures Mul(p, Fin(y)) == Fin(term) && Num(c, row, x, m, lo, j + 1) == Num(c, row, x, m, lo, j) + term
  {
    NumSplits(c, row, x, m, lo, j, j + 1);
    term := Num(c, row, x, m, j, j + 1);
    assert term == Weight(c, row, m, j) * At(x, j);
  }

  /** `f` is `a` plus the weighted sum over the first `n` keys from `lo` on. */
  ghost predicate DotIs(c: Scaling, row: Row, x: seq<real>, m: real, lo: int, a: real, n: nat, f: F) {
    f == Fin(a + Num(c, row, x, m, lo, lo + n))
  }

  lemma DotNext(c: Scaling, row: Row, x: seq<real>, m: real, lo: int, a: real, k: nat, before: F, p: F, y: real)
    requires DotIs(c, row, x, m, lo, a, k, before) && p == Fin(Weight(c, row, m, lo + k))
    requires |x| == |row.s| && (row.Sees(lo + k) ==> y == x[lo + k])
    ensures DotIs(c, row, x, m, lo, a, k + 1, Add(before, Mul(p, Fin(y))))
  {
    var term := LastTerm(c, row, x, m, lo, lo + k, p, y);
  }

  lemma {:induction false} FoldDotMeaning(c: Scaling, row: Row, x: seq<real>, m: real, lo: int, a: real,
                                          p: seq<F>, y: seq<real>)
    requires |p| == |y| && AreWeights(c, row, m, lo, p) && AgreesOn(row, x, lo, y)
    ensures DotIs(c, row, x, m, lo, a, |p|, FoldDot(Fin(a), p, y))
    decreases |p|
  {
    if p != [] {
      var k := |p| - 1;
      FoldDotMeaning(c, row, x, m, lo, a, p[..k], y[..k]);
      DotNext(c, row, x, m, lo, a, k, FoldDot(Fin(a), p[..k], y[..k]), p[k], y[k]);
    }
  }

  lemma {:induction false} FoldAddIsDot(acc: F, p: seq<F>)
    requires forall k :: 0 <= k < |p| ==> p[k].Fin?
    ensures FoldAdd(acc, p) == FoldDot(acc, p, Ones(|p|))
    decreases |p|
  {
    if p != [] {
      var k := |p| - 1;
      FoldAddIsDot(acc, p[..k]);
      assert Ones(|p|)[..k] == Ones(k);
      assert Mul(p[k], Fin(1.0)) == p[k];
    }
  }

  /** Adding a block's products to the sum of the later keys. */
  lemma ColumnStep(c: Scaling, row: Row, x: seq<real>, lo: int, mid: int, hi: int, a: F, m: real, p: seq<F>,
                   y: seq<real>)
    requires lo <= mid <= hi && |p| == |y| == mid - lo && AreWeights(c, row, m, lo, p) && AgreesOn(row, x, lo, y)
    requires ColumnIs(c, row, x, m, mid, hi, a)
    ensures ColumnIs(c, row, x, m, lo, hi, FoldDot(a, p, y))
  {
    FoldDotMeaning(c, row, x, m, lo, Num(c, row, x, m, mid, hi), p, y);
    NumSplits(c, row, x, m, lo, mid, hi);
  }

  // ----- Rescaling

  /** `e` turns sums over `[mid, hi)` relative to `prev` into sums relative to `m`. */
  ghost predicate Rebases(c: Scaling, row: Row, mid: int, hi: int, prev: F, m: real, e: real) {
    if prev == NegInf then row.SeesNone(mid, hi) else prev.Fin? && e == c.Exp(prev.r - m)
  }

  /** No rescale without the infinity check meets a row that is still entirely masked. */
  ghost predicate Checked(checkInf: bool, prev: F, max: F) {
    Score(prev) && Score(max) && (prev.Fin? ==> max.Fin?) && (max == NegInf ==> checkInf)
  }

  /** The difference of the maxima is then a number or minus infinity, never NaN. */
  lemma DifferenceDefined(checkInf: bool, prev: F, max: F)
    requires Checked(checkInf, prev, max)
    ensures Score(Sub(prev, MaxCur(checkInf, max)))
  {
  }

  lemma FactorOfMasked(t: Transcendental, checkInf: bool, max: F, l: real)
    requires Checked(checkInf, NegInf, max) && l > 0.0
    ensures RescaleFactor(t, checkInf, NegInf, max, l) == Fin(0.0)
  {
  }

  lemma FactorOfFinite(c: Scaling, checkInf: bool, prev: real, m: real)
    ensures RescaleFactor(c.t, checkInf, Fin(prev), Fin(m), ScaleLog2(c)) == Fin(c.Exp(prev - m))
  {
    var z := (prev + -m) * ScaleLog2(c);
    ScoreExp(c, prev, m, z);
    assert Mul(Sub(Fin(prev), Fin(m)), Fin(ScaleLog2(c))) == Fin(z);
  }

  /** The factor is a number that rebases the sums. */
  lemma FactorRebases(c: Scaling, row: Row, mid: int, hi: int, checkInf: bool, prev: F, max: F) returns (e: real)
    requires c.t.Lawful() && mid < hi && Safe(c, row, mid, hi) && Checked(checkInf, prev, max)
    requires prev == NegInf ==> row.SeesNone(mid, hi)
    ensures RescaleFactor(c.t, checkInf, prev, max, ScaleLog2(c)) == Fin(e)
    ensures Rebases(c, row, mid, hi, prev, Reference(max), e)
  {
    if prev == NegInf {
      assert !row.Sees(mid);
      ScaleLog2Sign(c);
      FactorOfMasked(c.t, checkInf, max, ScaleLog2(c));
      e := 0.0;
    } else {
      FactorOfFinite(c, checkInf, prev.r, max.r);
      e := c.Exp(prev.r - max.r);
    }
  }

  lemma ScaledBy(n: real, e: real, n': real)
    requires n' == e * n
    ensures Mul(Fin(n), Fin(e)) == Fin(n')
  {
  }

  /** A rescaled sum is exact relative to the new maximum. */
  lemma ColumnRescaled(c: Scaling, row: Row, x: seq<real>, mid: int, hi: int, prev: F, m: real, e: real, a: F)
    requires c.t.Lawful() && Rebases(c, row, mid, hi, prev, m, e) && ColumnIs(c, row, x, Reference(prev), mid, hi, a)
    ensures ColumnIs(c, row, x, m, mid, hi, Mul(a, Fin(e)))
  {
    if prev == NegInf {
      NumInvisible(c, row, x, 0.0, mid, hi);
      NumInvisible(c, row, x, m, mid, hi);
    } else {
      NumRebase(c, row, x, prev.r, m, mid, hi);
      ScaledBy(a.r, e, Num(c, row, x, m, mid, hi));
    }
  }

  lemma DistributeFour(a: real, b: real, c: real, d: real, e: real)
    ensures a * e + b * e + c * e + d * e == (a + b + c + d) * e
  {
  }

  /** The total is a number exactly when every lane's sum is. */
  lemma TotalFinite(sums: seq<F>)
    requires |sums| == 4
    ensures LaneTotal(sums).Fin? <==> sums[0].Fin? && sums[1].Fin? && sums[2].Fin? && sums[3].Fin?
  {
  }

  /** Scaling every lane scales their total. */
  lemma TotalScaled(sums: seq<F>, e: real)
    requires |sums| == 4 && LaneTotal(sums).Fin?
    ensures LaneTotal(ScaleAcc(sums, Fin(e))) == Mul(LaneTotal(sums), Fin(e))
  {
    TotalFinite(sums);
    DistributeFour(sums[0].r, sums[1].r, sums[2].r, sums[3].r, e);
  }

  // ----- One block

  /** The sums before a block, rescaled for its maximum unless there are none. */
  ghost predicate Rescaled(c: Scaling, row: Row, v: seq<seq<real>>, cols: nat, mid: int, hi: int, m: real, total: F,
                           acc: seq<F>)
    requires Matrix(v, |row.s|, cols)
  {
    ColumnIs(c, row, Ones(|row.s|), m, mid, hi, total) && ColumnsAre(c, row, v, cols, m, mid, hi, acc)
  }

  lemma ColumnsRescaled(c: Scaling, row: Row, v: seq<seq<real>>, cols: nat, mid: int, hi: int, prev: F, m: real,
                        e: real, acc: seq<F>)
    requires c.t.Lawful() && Matrix(v, |row.s|, cols) && Rebases(c, row, mid, hi, prev, m, e)
    requires ColumnsAre(c, row, v, cols, Reference(prev), mid, hi, acc)
    ensures ColumnsAre(c, row, v, cols, m, mid, hi, ScaleAcc(acc, Fin(e)))
  {
    forall d | 0 <= d < cols
      ensures ColumnIs(c, row, Column(v, d), m, mid, hi, ScaleAcc(acc, Fin(e))[d])
    {
      assert ColumnIs(c, row, Column(v, d), Reference(prev), mid, hi, acc[d]);
      ColumnRescaled(c, row, Column(v, d), mid, hi, prev, m, e, acc[d]);
    }
  }

  lemma StateRescaled(c: Scaling, row: Row, v: seq<seq<real>>, cols: nat, mid: int, hi: int, checkInf: bool,
                      st: RowState, max: F)
    requires c.t.Lawful() && Matrix(v, |row.s|, cols) && mid < hi && Safe(c, row, mid, hi)
    requires Represents(c, row, v, cols, mid, hi, st) && Checked(checkInf, st.max, max)
    ensures var f := RescaleFactor(c.t, checkInf, st.max, max, ScaleLog2(c));
            Rescaled(c, row, v, cols, mid, hi, Reference(max), LaneTotal(ScaleAcc(st.sums, f)), ScaleAcc(st.acc, f))
  {
    var e := FactorRebases(c, row, mid, hi, checkInf, st.max, max);
    TotalScaled(st.sums, e);
    ColumnRescaled(c, row, Ones(|row.s|), mid, hi, st.max, Reference(max), e, LaneTotal(st.sums));
    ColumnsRescaled(c, row, v, cols, mid, hi, st.max, Reference(max), e, st.acc);
  }

  lemma NothingYet(c: Scaling, row: Row, v: seq<seq<real>>, cols: nat, hi: int, m: real, acc: seq<F>)
    requires Matrix(v, |row.s|, cols) && |acc| == cols && forall d :: 0 <= d < cols ==> acc[d] == Fin(0.0)
    ensures Rescaled(c, row, v, cols, hi, hi, m, Fin(0.0), acc)
  {
  }

  /** The block's weights and weighted values, added to the rescaled sums. */
  lemma BlockAdded(c: Scaling, row: Row, v: seq<seq<real>>, cols: nat, lo: int, mid: int, hi: int, m: real, total: F,
                   acc: seq<F>, p: seq<F>, blk: seq<seq<real>>)
    requires Matrix(v, |row.s|, cols) && lo <= mid <= hi && |p| == |blk| == mid - lo && ValueBlock(v, cols, lo, blk)
    requires AreWeights(c, row, m, lo, p) && Rescaled(c, row, v, cols, mid, hi, m, total, acc)
    ensures ColumnIs(c, row, Ones(|row.s|), m, lo, hi, FoldAdd(total, p))
    ensures ColumnsAre(c, row, v, cols, m, lo, hi, GemmRow(acc, p, blk))
  {
    FoldAddIsDot(total, p);
    ColumnStep(c, row, Ones(|row.s|), lo, mid, hi, total, m, p, Ones(|p|));
    var r := GemmRow(acc, p, blk);
    forall d | 0 <= d < cols
      ensures ColumnIs(c, row, Column(v, d), m, lo, hi, r[d])
    {
      assert ColumnIs(c, row, Column(v, d), m, mid, hi, acc[d]);
      ColumnStep(c, row, Column(v, d), lo, mid, hi, acc[d], m, p, Column(blk, d));
    }
  }

  lemma MaximaChecked(row: Row, lo: int, mid: int, hi: int, checkInf: bool, prev: F, max: F)
    requires lo <= mid && IsMax(row, mid, hi, prev) && IsMax(row, lo, hi, max) && (checkInf || !row.SeesNone(lo, hi))
    ensures Checked(checkInf, prev, max)
  {
  }

  /**
   One block of the online softmax: the state that represents `[mid, hi)` becomes one that
   represents `[lo, hi)`, provided no rescale without the infinity check meets a row that is
   still entirely masked.
   */
  lemma RescaleStep(c: Scaling, row: Row, v: seq<seq<real>>, cols: nat, lo: int, mid: int, hi: int,
                    isFirst: bool, checkInf: bool, st: RowState, s: seq<F>, blk: seq<seq<real>>)
    requires c.t.Lawful() && Matrix(v, |row.s|, cols) && |st.sums| == 4
    requires s != [] && |blk| == |s| && mid == lo + |s| && mid <= hi
    requires MaskedBlock(row, lo, s) && ValueBlock(v, cols, lo, blk) && Safe(c, row, lo, hi)
    requires isFirst ==> mid == hi && |st.acc| == cols && forall d :: 0 <= d < cols ==> st.acc[d] == Fin(0.0)
    requires !isFirst ==> mid < hi && Represents(c, row, v, cols, mid, hi, st)
    requires isFirst || checkInf || !row.SeesNone(lo, hi)
    ensures var (st', p) := RescaleRow(c.t, isFirst, checkInf, st, s, ScaleLog2(c));
            |st'.acc| == cols && Represents(c, row, v, cols, lo, hi, st'.(acc := GemmRow(st'.acc, p, blk)))
  {
    var l := ScaleLog2(c);
    var (st', p) := RescaleRow(c.t, isFirst, checkInf, st, s, l);
    var max := st'.max;
    ReduceMaxMeaning(row, lo, mid, hi, isFirst, st.max, s);
    BlockProbs(c, row, lo, s, max);
    var f := RescaleFactor(c.t, checkInf, st.max, max, l);
    var sums := if isFirst then st.sums else ScaleAcc(st.sums, f);
    var total := if isFirst then Fin(0.0) else LaneTotal(sums);
    if isFirst {
      NothingYet(c, row, v, cols, hi, Reference(max), st.acc);
    } else {
      MaximaChecked(row, lo, mid, hi, checkInf, st.max, max);
      StateRescaled(c, row, v, cols, mid, hi, checkInf, st, max);
    }
    ReduceSumsTotal(isFirst, sums, p);
    BlockAdded(c, row, v, cols, lo, mid, hi, Reference(max), total, st'.acc, p, blk);
  }

  // ----- Normalisation

  ghost predicate Times(product: real, e: real, x: real) {
    product == e * x
  }

  /** The sum of weights relative to `m`, when it is positive, rebased to zero. */
  lemma DenRebase(c: Scaling, row: Row, m: real, lo: int, hi: int)
    requires c.t.Lawful() && Den(c, row, m, lo, hi) > 0.0
    ensures Times(Den(c, row, 0.0, lo, hi), c.Exp(m - 0.0), Den(c, row, m, lo, hi))
    ensures c.Exp(m - 0.0) > 0.0 && Den(c, row, 0.0, lo, hi) > 0.0
  {
    c.t.ExpIsPositive(c.Scaled(m - 0.0));
    NumRebase(c, row, Ones(|row.s|), m, 0.0, lo, hi);
  }

  lemma NormalizedLse(c: Scaling, row: Row, m: real, lo: int, hi: int)
    requires c.t.Lawful() && Den(c, row, m, lo, hi) > 0.0
    ensures Den(c, row, 0.0, lo, hi) > 0.0
    ensures Add(Mul(Fin(m), Fin(c.scale)), c.t.LogF(Fin(Den(c, row, m, lo, hi))))
            == Fin(c.t.Log(Den(c, row, 0.0, lo, hi)))
  {
    DenRebase(c, row, m, lo, hi);
    c.t.LogOfScaled(c.Scaled(m - 0.0), Den(c, row, m, lo, hi), Den(c, row, 0.0, lo, hi));
    assert Mul(Fin(m), Fin(c.scale)) == Fin(c.Scaled(m - 0.0));
  }

  lemma NumRescales(c: Scaling, row: Row, x: seq<real>, m: real, lo: int, hi: int)
    requires c.t.Lawful()
    ensures Times(Num(c, row, x, 0.0, lo, hi), c.Exp(m - 0.0), Num(c, row, x, m, lo, hi))
  {
    NumRebase(c, row, x, m, 0.0, lo, hi);
  }

  lemma Cancel(e: real, n: real, d: real, n0: real, d0: real)
    requires e > 0.0 && d > 0.0 && d0 > 0.0 && Times(n0, e, n) && Times(d0, e, d)
    ensures Mul(Fin(n), Recip(Fin(d))) == Fin(n0 / d0)
  {
    var q := n / d;
    assert n == q * d;
    assert n0 == q * d0;
  }

  lemma NormalizedColumn(c: Scaling, row: Row, x: seq<real>, m: real, lo: int, hi: int)
    requires c.t.Lawful() && Den(c, row, m, lo, hi) > 0.0
    ensures Den(c, row, 0.0, lo, hi) > 0.0
    ensures Mul(Fin(Num(c, row, x, m, lo, hi)), Recip(Fin(Den(c, row, m, lo, hi))))
            == Fin(Num(c, row, x, 0.0, lo, hi) / Den(c, row, 0.0, lo, hi))
  {
    DenRebase(c, row, m, lo, hi);
    NumRescales(c, row, x, m, lo, hi);
    Cancel(c.Exp(m - 0.0), Num(c, row, x, m, lo, hi), Den(c, row, m, lo, hi),
           Num(c, row, x, 0.0, lo, hi), Den(c, row, 0.0, lo, hi));
  }

  /** Normalising the state yields the attention of the row over the keys it represents. */
  lemma NormalizeMeaning(c: Scaling, row: Row, v: seq<seq<real>>, cols: nat, lo: int, hi: int, split: bool,
                         st: RowState)
    requires c.t.Lawful() && Matrix(v, |row.s|, cols) && Represents(c, row, v, cols, lo, hi, st)
    ensures var (out, lse) := NormalizeRow(c.t, split, st, c.scale);
            IsAttention(c, row, v, cols, lo, hi, NoKeys(split), out, lse)
  {
    var m := Reference(st.max);
    if st.max == NegInf {
      NumInvisible(c, row, Ones(|row.s|), m, lo, hi);
      forall d | 0 <= d < cols
        ensures Mul(st.acc[d], Fin(1.0)) == Fin(0.0)
      {
        assert ColumnIs(c, row, Column(v, d), m, lo, hi, st.acc[d]);
        NumInvisible(c, row, Column(v, d), m, lo, hi);
      }
    } else {
      DenNonNegative(c, row, m, lo, hi);
      NormalizedLse(c, row, m, lo, hi);
      forall d | 0 <= d < cols
        ensures Mul(st.acc[d], Recip(LaneTotal(st.sums)))
                == Fin(Num(c, row, Column(v, d), 0.0, lo, hi) / Den(c, row, 0.0, lo, hi))
      {
        assert ColumnIs(c, row, Column(v, d), m, lo, hi, st.acc[d]);
        NormalizedColumn(c, row, Column(v, d), m, lo, hi);
      }
    }
  }

  // ----- Scales that are not positive

  /** No entry is a number. */
  predicate NoNumbers(o: seq<F>) {
    forall d :: 0 <= d < |o| ==> !o[d].Fin?
  }

  /** Some entry is not a number. */
  ghost predicate SomeNoNumber(p: seq<F>) {
    exists k :: 0 <= k < |p| && !p[k].Fin?
  }

  /** Some entry is NaN. */
  ghost predicate SomeNaN(p: seq<F>) {
    exists k :: 0 <= k < |p| && p[k].NaN?
  }

  /** What sums can become: anything but minus infinity, and nothing below zero where `nonNegative` is asked for. */
  predicate Upward(nonNegative: bool, x: F) {
    !x.NegInf? && (nonNegative && x.Fin? ==> x.r >= 0.0)
  }

  ghost predicate AllUpward(nonNegative: bool, p: seq<F>) {
    forall k :: 0 <= k < |p| ==> Upward(nonNegative, p[k])
  }

  /** A sum that is lost: NaN, or, where `zero` is false, plus infinity. */
  predicate Lost(zero: bool, x: F) {
    x.NaN? || (!zero && x.PosInf?)
  }

  /**
   The sums are no longer numbers: NaN where the scale is zero, NaN or plus infinity where it is
   negative.
   */
  ghost predicate Spoiled(zero: bool, st: RowState) {
    && |st.sums| == 4 && Lost(zero, LaneTotal(st.sums)) && NoNumbers(st.acc)
    && Score(st.max) && AllUpward(st.max == NegInf, st.sums)
  }

  lemma {:induction false} FoldDotSpoiled(acc: F, p: seq<F>, x: seq<real>)
    requires |p| == |x| && (!acc.Fin? || SomeNoNumber(p))
    ensures !FoldDot(acc, p, x).Fin?
    decreases |p|
  {
    if p != [] {
      var k := |p| - 1;
      if p[k].Fin? {
        assert !acc.Fin? || SomeNoNumber(p[..k]) by {
          if SomeNoNumber(p) {
            var i :| 0 <= i < |p| && !p[i].Fin?;
            assert p[..k][i] == p[i];
          }
        }
        FoldDotSpoiled(acc, p[..k], x[..k]);
      }
    }
  }

  lemma UpwardAdds(nonNegative: bool, x: F, y: F)
    requires Upward(nonNegative, x) && Upward(nonNegative, y)
    ensures Upward(nonNegative, Add(x, y))
    ensures Add(x, y).Fin? <==> x.Fin? && y.Fin?
    ensures Add(x, y).NaN? <==> x.NaN? || y.NaN?
  {
  }

  /** Adding values that are not minus infinity is lost exactly if one of them is. */
  lemma {:induction false} FoldAddLost(acc: F, p: seq<F>)
    requires Upward(false, acc) && AllUpward(false, p)
    ensures Upward(false, FoldAdd(acc, p))
    ensures FoldAdd(acc, p).Fin? <==> acc.Fin? && !SomeNoNumber(p)
    ensures FoldAdd(acc, p).NaN? <==> acc.NaN? || SomeNaN(p)
    decreases |p|
  {
    if p != [] {
      var k := |p| - 1;
      FoldAddLost(acc, p[..k]);
      UpwardAdds(false, FoldAdd(acc, p[..k]), p[k]);
      assert SomeNoNumber(p) <==> SomeNoNumber(p[..k]) || !p[k].Fin? by {
        assert forall i :: 0 <= i < k ==> p[..k][i] == p[i];
      }
      assert SomeNaN(p) <==> SomeNaN(p[..k]) || p[k].NaN? by {
        assert forall i :: 0 <= i < k ==> p[..k][i] == p[i];
      }
    }
  }

  lemma {:induction false} SpreadUpward(nonNegative: bool, lanes: seq<F>, owner: seq<nat>, p: seq<F>)
    requires Owned(owner, |p|, |lanes|) && AllUpward(nonNegative, lanes) && AllUpward(nonNegative, p)
    ensures AllUpward(nonNegative, Spread(lanes, owner, p, Add))
    decreases |p|
  {
    if p != [] {
      var k := |p| - 1;
      SpreadUpward(nonNegative, lanes, owner[..k], p[..k]);
      UpwardAdds(nonNegative, Spread(lanes, owner[..k], p[..k], Add)[owner[k]], p[k]);
    }
  }

  /** The total of lanes that are not minus infinity is lost exactly if a lane is. */
  lemma TotalLost(sums: seq<F>)
    requires |sums| == 4 && AllUpward(false, sums)
    ensures Upward(false, LaneTotal(sums))
    ensures LaneTotal(sums).Fin? <==> !SomeNoNumber(sums)
    ensures LaneTotal(sums).NaN? <==> SomeNaN(sums)
  {
    UpwardAdds(false, sums[0], sums[1]);
    UpwardAdds(false, Add(sums[0], sums[1]), sums[2]);
    UpwardAdds(false, Add(Add(sums[0], sums[1]), sums[2]), sums[3]);
    assert SomeNoNumber(sums) <==> !sums[0].Fin? || !sums[1].Fin? || !sums[2].Fin? || !sums[3].Fin?;
    assert SomeNaN(sums) <==> sums[0].NaN? || sums[1].NaN? || sums[2].NaN? || sums[3].NaN?;
  }

  /** The factors by which sums are rescaled. */
  predicate UpwardFactor(nonNegative: bool, f: F) {
    f.NaN? || (f.Fin? && f.r > 0.0) || (nonNegative && f.PosInf?)
  }

  /** With a scale that is not positive, a factor is positive or NaN, and infinite only while nothing was visible. */
  lemma FactorUpward(t: Transcendental, checkInf: bool, prev: F, max: F, l: real)
    requires t.Lawful() && l <= 0.0 && Score(prev) && Score(max) && (prev.Fin? ==> max.Fin?)
    ensures UpwardFactor(prev == NegInf, RescaleFactor(t, checkInf, prev, max, l))
  {
    var d := Mul(Sub(prev, MaxCur(checkInf, max)), Fin(l));
    if d.Fin? {
      assert t.ExpPositive(d.r);
    }
  }

  lemma UpwardScales(nonNegative: bool, x: F, f: F)
    requires Upward(nonNegative, x) && UpwardFactor(nonNegative, f)
    ensures Upward(nonNegative, Mul(x, f))
    ensures !x.Fin? ==> !Mul(x, f).Fin?
    ensures x.NaN? ==> Mul(x, f).NaN?
  {
  }

  ghost predicate NoNaN(p: seq<F>) {
    forall k :: 0 <= k < |p| ==> !p[k].NaN?
  }

  lemma FiniteUpward(sums: seq<F>)
    requires |sums| == 4 && LaneTotal(sums).Fin?
    ensures AllUpward(false, sums) && NoNaN(sums)
  {
    TotalFinite(sums);
  }

  lemma LanesScale(zero: bool, nonNegative: bool, sums: seq<F>, f: F)
    requires |sums| == 4 && AllUpward(nonNegative, sums) && UpwardFactor(nonNegative, f)
    ensures AllUpward(nonNegative, ScaleAcc(sums, f))
    ensures Lost(zero, LaneTotal(sums)) ==> Lost(zero, LaneTotal(ScaleAcc(sums, f)))
  {
    var scaled := ScaleAcc(sums, f);
    forall q | 0 <= q < 4
      ensures Upward(nonNegative, scaled[q])
      ensures !sums[q].Fin? ==> !scaled[q].Fin?
      ensures sums[q].NaN? ==> scaled[q].NaN?
    {
      UpwardScales(nonNegative, sums[q], f);
    }
    TotalLost(sums);
    TotalLost(scaled);
  }

  lemma ScaledScore(x: F, l: real)
    requires l <= 0.0 && Score(x)
    ensures if x.Fin? then Mul(x, Fin(l)).Fin? else Lost(l == 0.0, Mul(x, Fin(l)))
  {
  }

  lemma MaxScaledFinite(max: F, l: real)
    requires Score(max)
    ensures MaxScaled(max, l).Fin?
  {
  }

  lemma ExpUpward(t: Transcendental, zero: bool, x: F, y: F)
    requires t.Lawful() && (x.Fin? || Lost(zero, x)) && y.Fin?
    ensures Upward(true, t.Exp2F(Sub(x, y)))
    ensures Lost(zero, x) ==> Lost(zero, t.Exp2F(Sub(x, y)))
  {
    if x.Fin? {
      assert t.ExpPositive(x.r + -y.r);
    }
  }

  /** The probability of a score: a number, or lost if the score is masked. */
  ghost predicate ProbIs(zero: bool, x: F, p: F) {
    Upward(true, p) && (x == NegInf ==> Lost(zero, p))
  }

  /** With a scale that is not positive, a masked score becomes plus infinity or, if the scale is zero, NaN. */
  lemma ProbUpward(t: Transcendental, x: F, max: F, l: real, zero: bool)
    requires t.Lawful() && l <= 0.0 && Score(x) && Score(max) && zero == (l == 0.0)
    ensures ProbIs(zero, x, Prob(t, x, max, l))
  {
    ScaledScore(x, l);
    MaxScaledFinite(max, l);
    ExpUpward(t, zero, Mul(x, Fin(l)), MaxScaled(max, l));
  }

  /** Every score is a number or minus infinity. */
  ghost predicate AllScores(s: seq<F>) {
    forall k :: 0 <= k < |s| ==> Score(s[k])
  }

  ghost predicate ProbsAre(zero: bool, s: seq<F>, p: seq<F>) {
    |p| == |s| && forall k :: 0 <= k < |s| ==> ProbIs(zero, s[k], p[k])
  }

  lemma ProbsLost(zero: bool, s: seq<F>, p: seq<F>)
    requires ProbsAre(zero, s, p)
    ensures AllUpward(true, p)
    ensures NegInf in s ==> SomeNoNumber(p) && (zero ==> SomeNaN(p))
  {
    forall k | 0 <= k < |s|
      ensures Upward(true, p[k])
    {
      assert ProbIs(zero, s[k], p[k]);
    }
    if NegInf in s {
      var k :| 0 <= k < |s| && s[k] == NegInf;
      assert ProbIs(zero, s[k], p[k]);
    }
  }

  lemma ProbsUpward(t: Transcendental, s: seq<F>, max: F, l: real, zero: bool)
    requires t.Lawful() && l <= 0.0 && AllScores(s) && Score(max) && zero == (l == 0.0)
    ensures ProbsAre(zero, s, ScaleApplyExp2(t, s, max, l))
  {
    forall k | 0 <= k < |s|
      ensures ProbIs(zero, s[k], ScaleApplyExp2(t, s, max, l)[k])
    {
      assert Score(s[k]);
      ProbUpward(t, s[k], max, l, zero);
    }
  }

  /** A block with a lost sum or a lost probability leaves a lost sum. */
  lemma SumsLost(zero: bool, zeroInit: bool, nonNegative: bool, sums: seq<F>, p: seq<F>)
    requires |sums| == 4 && AllUpward(true, p) && (zeroInit || AllUpward(nonNegative, sums))
    requires (!zeroInit && Lost(zero, LaneTotal(sums))) || (SomeNoNumber(p) && (zero ==> SomeNaN(p)))
    ensures Lost(zero, LaneTotal(ReduceSums(zeroInit, sums, p)))
    ensures AllUpward(nonNegative, ReduceSums(zeroInit, sums, p))
  {
    var start := if zeroInit then Quad(Fin(0.0)) else sums;
    SpreadUpward(nonNegative, start, Holders(|p|), p);
    TotalLost(start);
    ReduceSumsTotal(zeroInit, sums, p);
    FoldAddLost(if zeroInit then Fin(0.0) else LaneTotal(sums), p);
  }

  lemma AccSpoiled(acc: seq<F>, p: seq<F>, blk: seq<seq<real>>)
    requires Matrix(blk, |p|, |acc|) && (SomeNoNumber(p) || NoNumbers(acc))
    ensures NoNumbers(GemmRow(acc, p, blk))
  {
    var r := GemmRow(acc, p, blk);
    forall d | 0 <= d < |acc|
      ensures !r[d].Fin?
    {
      FoldDotSpoiled(acc[d], p, Column(blk, d));
    }
  }

  lemma ScaledNoNumbers(acc: seq<F>, f: F)
    requires NoNumbers(acc)
    ensures NoNumbers(ScaleAcc(acc, f))
  {
  }

  /** A spoiled row stays spoiled. */
  lemma SpoiledStays(t: Transcendental, checkInf: bool, st: RowState, s: seq<F>, blk: seq<seq<real>>, l: real,
                     zero: bool)
    requires t.Lawful() && l <= 0.0 && zero == (l == 0.0) && AllScores(s) && Matrix(blk, |s|, |st.acc|)
    requires Spoiled(zero, st)
    ensures var (st', p) := RescaleRow(t, false, checkInf, st, s, l);
            Spoiled(zero, st'.(acc := GemmRow(st'.acc, p, blk)))
  {
    var (st', p) := RescaleRow(t, false, checkInf, st, s, l);
    var f := RescaleFactor(t, checkInf, st.max, st'.max, l);
    FoldMaxMeaning(st.max, s);
    FactorUpward(t, checkInf, st.max, st'.max, l);
    LanesScale(zero, st.max == NegInf, st.sums, f);
    ProbsUpward(t, s, st'.max, l, zero);
    ProbsLost(zero, s, p);
    SumsLost(zero, false, st.max == NegInf, ScaleAcc(st.sums, f), p);
    ScaledNoNumbers(st.acc, f);
    AccSpoiled(ScaleAcc(st.acc, f), p, blk);
  }

  /** A masked score spoils a row whose scale is not positive. */
  lemma MaskSpoils(t: Transcendental, isFirst: bool, checkInf: bool, st: RowState, s: seq<F>, blk: seq<seq<real>>,
                   l: real, zero: bool)
    requires t.Lawful() && l <= 0.0 && zero == (l == 0.0) && AllScores(s) && Matrix(blk, |s|, |st.acc|)
    requires NegInf in s && |st.sums| == 4
    requires isFirst || (st.max.Fin? && LaneTotal(st.sums).Fin?)
    ensures var (st', p) := RescaleRow(t, isFirst, checkInf, st, s, l);
            Spoiled(zero, st'.(acc := GemmRow(st'.acc, p, blk)))
  {
    var (st', p) := RescaleRow(t, isFirst, checkInf, st, s, l);
    var f := RescaleFactor(t, checkInf, st.max, st'.max, l);
    FoldMaxMeaning(if isFirst then NaN else st.max, s);
    ProbsUpward(t, s, st'.max, l, zero);
    ProbsLost(zero, s, p);
    if isFirst {
      SumsLost(zero, true, st'.max == NegInf, st.sums, p);
    } else {
      FiniteUpward(st.sums);
      FactorUpward(t, checkInf, st.max, st'.max, l);
      LanesScale(zero, false, st.sums, f);
      SumsLost(zero, false, false, ScaleAcc(st.sums, f), p);
    }
    AccSpoiled(st'.acc, p, blk);
  }

  // ----- Negative scales: the sums become infinite

  ghost predicate AllInfinite(p: seq<F>) {
    forall k :: 0 <= k < |p| ==> p[k] == PosInf
  }

  /** No sum is NaN, and while nothing was visible every lane has met a masked score. */
  ghost predicate Infinite(st: RowState) {
    NoNaN(st.sums) && (st.max == NegInf ==> AllInfinite(st.sums))
  }

  /** With a negative scale, a checked factor is positive, or infinite while nothing was visible. */
  lemma NegativeFactor(t: Transcendental, checkInf: bool, prev: F, max: F, l: real)
    requires t.Lawful() && l < 0.0 && Checked(checkInf, prev, max)
    ensures var f := RescaleFactor(t, checkInf, prev, max, l);
            if prev == NegInf then f == PosInf else f.Fin? && f.r > 0.0
  {
    var d := Mul(Sub(prev, MaxCur(checkInf, max)), Fin(l));
    if d.Fin? {
      assert t.ExpPositive(d.r);
    }
  }

  lemma InfiniteScales(nothing: bool, sums: seq<F>, f: F)
    requires NoNaN(sums) && (if nothing then AllInfinite(sums) && f == PosInf else f.Fin? && f.r > 0.0)
    ensures NoNaN(ScaleAcc(sums, f)) && (nothing ==> AllInfinite(ScaleAcc(sums, f)))
  {
  }

  lemma {:induction false} SpreadInfinite(lanes: seq<F>, owner: seq<nat>, p: seq<F>)
    requires Owned(owner, |p|, |lanes|) && AllUpward(false, lanes) && NoNaN(lanes) && AllUpward(true, p) && NoNaN(p)
    ensures NoNaN(Spread(lanes, owner, p, Add))
    ensures AllInfinite(lanes) ==> AllInfinite(Spread(lanes, owner, p, Add))
    ensures AllInfinite(p) ==> forall k :: 0 <= k < |p| ==> Spread(lanes, owner, p, Add)[owner[k]] == PosInf
    decreases |p|
  {
    if p != [] {
      var k := |p| - 1;
      SpreadUpward(false, lanes, owner[..k], p[..k]);
      SpreadInfinite(lanes, owner[..k], p[..k]);
      UpwardAdds(false, Spread(lanes, owner[..k], p[..k], Add)[owner[k]], p[k]);
      assert forall i :: 0 <= i < k ==> owner[..k][i] == owner[i];
    }
  }

  lemma NegativeProb(t: Transcendental, x: F, max: F, l: real)
    requires l < 0.0 && Score(x) && Score(max)
    ensures !Prob(t, x, max, l).NaN? && (x == NegInf ==> Prob(t, x, max, l) == PosInf)
  {
    MaxScaledFinite(max, l);
  }

  lemma NegativeProbs(t: Transcendental, s: seq<F>, max: F, l: real)
    requires t.Lawful() && l < 0.0 && AllScores(s) && Score(max)
    ensures var p := ScaleApplyExp2(t, s, max, l); AllUpward(true, p) && NoNaN(p)
    ensures (forall k :: 0 <= k < |s| ==> s[k] == NegInf) ==> AllInfinite(ScaleApplyExp2(t, s, max, l))
  {
    ProbsUpward(t, s, max, l, false);
    ProbsLost(false, s, ScaleApplyExp2(t, s, max, l));
    forall k | 0 <= k < |s|
      ensures var p := ScaleApplyExp2(t, s, max, l)[k]; !p.NaN? && (s[k] == NegInf ==> p == PosInf)
    {
      assert Score(s[k]);
      NegativeProb(t, s[k], max, l);
    }
  }

  /** Eight columns give every lane of a quad one. */
  lemma EveryLaneHolds(n: nat)
    requires n >= 8
    ensures Holders(n)[0] == 0 && Holders(n)[2] == 1 && Holders(n)[4] == 2 && Holders(n)[6] == 3
  {
  }

  /** A block on top of sums that are infinite, or of none. */
  lemma SumsInfinite(zeroInit: bool, sums: seq<F>, p: seq<F>)
    requires |sums| == 4 && AllUpward(true, p) && NoNaN(p) && (zeroInit || (AllUpward(false, sums) && NoNaN(sums)))
    ensures NoNaN(ReduceSums(zeroInit, sums, p))
    ensures !zeroInit && AllInfinite(sums) ==> AllInfinite(ReduceSums(zeroInit, sums, p))
    ensures zeroInit && AllInfinite(p) && |p| >= 8 ==> AllInfinite(ReduceSums(zeroInit, sums, p))
  {
    SpreadInfinite(if zeroInit then Quad(Fin(0.0)) else sums, Holders(|p|), p);
    if |p| >= 8 {
      EveryLaneHolds(|p|);
    }
  }

  /** With a negative scale, a spoiled row whose lanes all have columns stays infinite. */
  lemma InfiniteStays(t: Transcendental, checkInf: bool, st: RowState, s: seq<F>, l: real)
    requires t.Lawful() && l < 0.0 && AllScores(s) && Spoiled(false, st) && Infinite(st)
    requires Checked(checkInf, st.max, ReduceMax(false, st.max, s))
    ensures Infinite(RescaleRow(t, false, checkInf, st, s, l).0)
  {
    var (st', p) := RescaleRow(t, false, checkInf, st, s, l);
    var f := RescaleFactor(t, checkInf, st.max, st'.max, l);
    NegativeFactor(t, checkInf, st.max, st'.max, l);
    FactorUpward(t, checkInf, st.max, st'.max, l);
    LanesScale(false, st.max == NegInf, st.sums, f);
    InfiniteScales(st.max == NegInf, st.sums, f);
    NegativeProbs(t, s, st'.max, l);
    SumsInfinite(false, ScaleAcc(st.sums, f), p);
  }

  /** And so it becomes with its first masked score, in the first block... */
  lemma FirstMaskInfinite(t: Transcendental, checkInf: bool, st: RowState, s: seq<F>, l: real)
    requires t.Lawful() && l < 0.0 && AllScores(s) && |s| >= 8 && |st.sums| == 4
    ensures Infinite(RescaleRow(t, true, checkInf, st, s, l).0)
  {
    var (st', p) := RescaleRow(t, true, checkInf, st, s, l);
    FoldMaxMeaning(NaN, s);
    NegativeProbs(t, s, st'.max, l);
    SumsInfinite(true, st.sums, p);
  }

  /** ... or in a later one. */
  lemma NextMaskInfinite(t: Transcendental, checkInf: bool, st: RowState, s: seq<F>, l: real)
    requires t.Lawful() && l < 0.0 && AllScores(s) && |st.sums| == 4 && st.max.Fin? && LaneTotal(st.sums).Fin?
    ensures Infinite(RescaleRow(t, false, checkInf, st, s, l).0)
  {
    var (st', p) := RescaleRow(t, false, checkInf, st, s, l);
    var f := RescaleFactor(t, checkInf, st.max, st'.max, l);
    FoldMaxMeaning(st.max, s);
    NegativeProbs(t, s, st'.max, l);
    FiniteUpward(st.sums);
    NegativeFactor(t, checkInf, st.max, st'.max, l);
    FactorUpward(t, checkInf, st.max, st'.max, l);
    LanesScale(false, false, st.sums, f);
    InfiniteScales(false, st.sums, f);
    SumsInfinite(false, ScaleAcc(st.sums, f), p);
  }

  /** An exact state of a row that is safe although the scale is not positive holds numbers only. */
  lemma SafeStateFinite(c: Scaling, row: Row, v: seq<seq<real>>, cols: nat, lo: int, hi: int, st: RowState)
    requires c.scale <= 0.0 && Matrix(v, |row.s|, cols) && lo < hi && Safe(c, row, lo, hi)
    requires Represents(c, row, v, cols, lo, hi, st)
    ensures st.max.Fin? && LaneTotal(st.sums).Fin?
  {
    assert row.Sees(lo);
  }

  /** The log-sum-exp of a spoiled row: `spoilt`, or plus infinity if the scale is negative. */
  predicate SpoiltLse(scale: real, spoilt: F, lse: F) {
    lse == spoilt || (scale < 0.0 && lse == PosInf)
  }

  /** What a walk over blocks of `n` columns leaves a spoiled row with, where `none` is for a row without keys. */
  function Spoilt(scale: real, n: nat, none: F): F {
    if scale < 0.0 && n >= 8 then PosInf else none
  }

  /** The state of a row that is not safe on `[lo, hi)`, in a walk over blocks of `n` columns. */
  ghost predicate SpoiledRow(c: Scaling, row: Row, lo: int, hi: int, n: nat, st: RowState) {
    && c.scale <= 0.0 && Spoiled(c.scale == 0.0, st) && IsMax(row, lo, hi, st.max)
    && (c.scale < 0.0 && n >= 8 ==> Infinite(st))
  }

  /** Normalising a spoiled row gives no number, and the log-sum-exp of a row without keys or plus infinity. */
  lemma NormalizeSpoiled(c: Scaling, row: Row, lo: int, hi: int, n: nat, split: bool, st: RowState)
    requires SpoiledRow(c, row, lo, hi, n, st)
    ensures var (out, lse) := NormalizeRow(c.t, split, st, c.scale);
            NoNumbers(out) && SpoiltLse(c.scale, Spoilt(c.scale, n, NoKeys(split)), lse)
  {
    ScaledNoNumbers(st.acc, Fin(1.0));
    TotalLost(st.sums);
    if !LaneTotal(st.sums).NaN? {
      ScaledNoNumbers(st.acc, Recip(LaneTotal(st.sums)));
    }
  }
}
