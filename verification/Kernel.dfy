/**
 The attention of one query tile (pod_attn/pod_attn/fused_fwd_kernel.h): the backward walk over
 the key blocks, with masking, online softmax and accumulation in place, and its refinement of
 the specification for every row of the tile.
 */
module Kernel {
  import opened Floats
  import opened IntMath
  import opened AttentionSpec
  import opened OnlineSoftmax
  import opened MaskSchedule

  /**
   One batch entry and head: the scores `q . k` of every query and key, the value rows, and the
   arbitrary contents of the score registers for rows and keys that do not exist.
   */
  datatype Inputs = Inputs(s: seq<seq<real>>, v: seq<seq<real>>, cols: nat, junk: (int, int) -> F) {
    ghost predicate Valid(c: Config) {
      Matrix(s, c.sq, c.sk) && Matrix(v, c.sk, cols)
    }
  }

  /** Query `i` with the documented mask. */
  function RowOf(c: Config, x: Inputs, i: int): Row
    requires 0 <= i < |x.s|
  {
    Row(x.s[i], seq(c.sk, j => c.Visible(i, j)))
  }

  /** Query `i` with the mask that a walk applies whose range ends at block `hi`. */
  function ScheduledRow(c: Config, x: Inputs, hi: int, i: int): Row
    requires 0 <= i < |x.s| && c.N > 0
  {
    Row(x.s[i], seq(c.sk, j => c.Scheduled(hi, i, j)))
  }

  /** The block of value rows starting at key `col`; a predicated load clears the rows past the end. */
  function LoadV(c: Config, x: Inputs, col: nat, predicated: bool): (blk: seq<seq<real>>)
    requires Matrix(x.v, c.sk, x.cols) && (!predicated ==> col + c.N <= c.sk)
    ensures Matrix(blk, c.N, x.cols)
  {
    seq(c.N, k requires 0 <= k < c.N =>
      if !predicated || col + k < c.sk then x.v[col + k] else seq(x.cols, _ => 0.0))
  }

  /** The scores of query `i` against the block of keys starting at `col`, before masking. */
  function LoadScores(c: Config, x: Inputs, i: nat, col: nat, predicated: bool): (s: seq<F>)
    requires Matrix(x.s, c.sq, c.sk) && (!predicated ==> col + c.N <= c.sk)
    ensures |s| == c.N
  {
    seq(c.N, k requires 0 <= k < c.N =>
      if i < c.sq && (!predicated || col + k < c.sk) then Fin(x.s[i][col + k]) else x.junk(i, col + k))
  }

  function MaskRow(c: Config, causalMask: bool, evenMN: bool, i: int, col: int, s: seq<F>): seq<F> {
    seq(|s|, k requires 0 <= k < |s| => if c.Masked(causalMask, evenMN, i, col + k) then NegInf else s[k])
  }

  /** One block step: the first key of the block and the compile-time flags of the iteration. */
  datatype Step = Step(col: nat, isFirst: bool, causalMask: bool, evenMN: bool, checkInf: bool, predicated: bool)

  /** The loads of the step stay within the keys that exist. */
  ghost predicate InBounds(c: Config, x: Inputs, p: Step) {
    c.N > 0 && x.Valid(c) && (!p.predicated ==> p.col + c.N <= c.sk)
  }

  function MaskedScores(c: Config, x: Inputs, p: Step, i: nat): (s: seq<F>)
    requires Matrix(x.s, c.sq, c.sk) && (!p.predicated ==> p.col + c.N <= c.sk)
    ensures |s| == c.N
  {
    MaskRow(c, p.causalMask, p.evenMN, i, p.col, LoadScores(c, x, i, p.col, p.predicated))
  }

  /** The registers of a row have the shape of the tile. */
  predicate Shaped(x: Inputs, st: RowState) {
    |st.sums| == 4 && |st.acc| == x.cols
  }

  /** What one block step does to the state of query row `i`. */
  ghost function BlockRow(sc: Scaling, c: Config, x: Inputs, p: Step, i: nat, st: RowState): (r: RowState)
    requires InBounds(c, x, p) && Shaped(x, st)
    ensures Shaped(x, r)
  {
    var s := MaskedScores(c, x, p, i);
    var (st', pr) := RescaleRow(sc.t, p.isFirst, p.checkInf, st, s, ScaleLog2(sc));
    st'.(acc := GemmRow(st'.acc, pr, LoadV(c, x, p.col, p.predicated)))
  }

  /** One block step on an exact state of a row, given that its scores are masked as `row` says. */
  lemma RowStep(sc: Scaling, c: Config, x: Inputs, p: Step, i: nat, row: Row, above: int, keyHi: int, st: RowState)
    requires sc.t.Lawful() && InBounds(c, x, p) && Shaped(x, st) && |row.s| == c.sk && above == p.col + c.N <= keyHi
    requires MaskedBlock(row, p.col, MaskedScores(c, x, p, i)) && Safe(sc, row, p.col, keyHi)
    requires p.isFirst || p.checkInf || !row.SeesNone(p.col, keyHi)
    requires p.isFirst <==> above == keyHi
    requires p.isFirst ==> forall d :: 0 <= d < x.cols ==> st.acc[d] == Fin(0.0)
    requires !p.isFirst ==> Represents(sc, row, x.v, x.cols, above, keyHi, st)
    ensures Represents(sc, row, x.v, x.cols, p.col, keyHi, BlockRow(sc, c, x, p, i, st))
  {
    RescaleStep(sc, row, x.v, x.cols, p.col, above, keyHi, p.isFirst, p.checkInf, st,
                MaskedScores(c, x, p, i), LoadV(c, x, p.col, p.predicated));
  }

  /** One block step on a spoiled row. */
  lemma RowStaysSpoiled(sc: Scaling, c: Config, x: Inputs, p: Step, i: nat, row: Row, above: int, keyHi: int,
                        st: RowState)
    requires sc.t.Lawful() && InBounds(c, x, p) && Shaped(x, st) && !p.isFirst && above == p.col + c.N <= keyHi
    requires MaskedBlock(row, p.col, MaskedScores(c, x, p, i)) && (p.checkInf || !row.SeesNone(p.col, keyHi))
    requires SpoiledRow(sc, row, above, keyHi, c.N, st)
    ensures SpoiledRow(sc, row, p.col, keyHi, c.N, BlockRow(sc, c, x, p, i, st))
  {
    var s, l := MaskedScores(c, x, p, i), ScaleLog2(sc);
    ScaleLog2Sign(sc);
    SpoiledStays(sc.t, p.checkInf, st, s, LoadV(c, x, p.col, p.predicated), l, sc.scale == 0.0);
    ReduceMaxMeaning(row, p.col, above, keyHi, false, st.max, s);
    if sc.scale < 0.0 && c.N >= 8 {
      MaximaChecked(row, p.col, above, keyHi, p.checkInf, st.max, ReduceMax(false, st.max, s));
      InfiniteStays(sc.t, p.checkInf, st, s, l);
    }
  }

  /** One block step that meets a masked score with a scale that is not positive. */
  lemma RowSpoils(sc: Scaling, c: Config, x: Inputs, p: Step, i: nat, row: Row, above: int, keyHi: int, st: RowState,
                  j: int)
    requires sc.t.Lawful() && InBounds(c, x, p) && Shaped(x, st) && sc.scale <= 0.0 && above == p.col + c.N <= keyHi
    requires MaskedBlock(row, p.col, MaskedScores(c, x, p, i)) && p.col <= j < above && !row.Sees(j)
    requires if p.isFirst then above == keyHi
             else st.max.Fin? && LaneTotal(st.sums).Fin? && IsMax(row, above, keyHi, st.max)
    ensures SpoiledRow(sc, row, p.col, keyHi, c.N, BlockRow(sc, c, x, p, i, st))
  {
    var s, l := MaskedScores(c, x, p, i), ScaleLog2(sc);
    assert s[j - p.col] == NegInf;
    ScaleLog2Sign(sc);
    MaskSpoils(sc.t, p.isFirst, p.checkInf, st, s, LoadV(c, x, p.col, p.predicated), l, sc.scale == 0.0);
    ReduceMaxMeaning(row, p.col, above, keyHi, p.isFirst, st.max, s);
    if sc.scale < 0.0 && c.N >= 8 {
      if p.isFirst {
        FirstMaskInfinite(sc.t, p.checkInf, st, s, l);
      } else {
        NextMaskInfinite(sc.t, p.checkInf, st, s, l);
      }
    }
  }

  // ----- The walk over the blocks

  /** The flags of an iteration of the masking loop. */
  function MaskingStep(c: Config, checkInf: bool, step: nat, col: nat): Step {
    Step(col, step == 0, c.causal, c.even, checkInf, step == 0 && !c.even)
  }

  /** The flags of an iteration of the tail loop. */
  function TailStep(c: Config, col: nat): Step {
    Step(col, false, false, true, c.local, false)
  }

  lemma ExponentsDefined(sc: Scaling, row: Row, lo: int, hi: int, s: seq<F>, max: F)
    requires sc.t.Lawful() && MaskedBlock(row, lo, s) && lo + |s| <= hi && Safe(sc, row, lo, hi) && Score(max)
    ensures forall k :: 0 <= k < |s| ==> Score(Sub(Mul(s[k], Fin(ScaleLog2(sc))), MaxScaled(max, ScaleLog2(sc))))
  {
    ScaleLog2Sign(sc);
    forall k | 0 <= k < |s|
      ensures Score(Sub(Mul(s[k], Fin(ScaleLog2(sc))), MaxScaled(max, ScaleLog2(sc))))
    {
      assert !row.Sees(lo + k) ==> sc.scale > 0.0;
      ExponentDefined(s[k], max, ScaleLog2(sc));
    }
  }

  /**
   A walk whose first query is `row`, over the blocks `[lo, hi)`, whose keys are `[keyLo, keyHi)`,
   with the infinity check of the masking loop switched on or off.
   */
  datatype Walk = Walk(c: Config, x: Inputs, row: nat, lo: nat, hi: nat, keyLo: nat, keyHi: nat, checkInf: bool) {
    /** What the launch code guarantees. */
    ghost predicate Valid() {
      && c.Valid() && x.Valid(c)
      && lo < hi <= CeilDiv(c.sk, c.N)
      && keyLo == lo * c.N && keyHi == hi * c.N
      && (c.causal || c.local ==> checkInf)
    }

    /** Query `i` with the mask that this walk applies. */
    ghost function MaskedRow(i: nat): Row
      requires x.Valid(c) && c.N > 0 && i < c.sq
    {
      ScheduledRow(c, x, hi, i)
    }

    /** The keys of the walked blocks. */
    function Keys(): Span {
      Span(keyLo, keyHi)
    }

    /** The first key of block `n`. */
    ghost function KeyAt(n: nat): int {
      if n == 0 then 0 else KeyAt(n - 1) + c.N
    }

    lemma {:induction false} KeyAtIsProduct(n: nat)
      ensures KeyAt(n) == n * c.N
      decreases n
    {
      if n > 0 {
        KeyAtIsProduct(n - 1);
        DistributeSub(n, 1, c.N);
      }
    }

    /** Block `n` of the walk starts at `key`. */
    ghost predicate BlockAt(n: int, key: int) {
      lo <= n < hi && key == n * c.N
    }

    /** The iteration that handles block `n`. */
    ghost function StepAt(n: nat, key: nat): Step
      requires c.N > 0 && n < hi
    {
      if hi - 1 - n < c.MaskingSteps() then MaskingStep(c, checkInf, hi - 1 - n, key) else TailStep(c, key)
    }

    lemma KeysOrdered(n: int, key: int)
      requires Valid() && BlockAt(n, key)
      ensures 0 <= keyLo <= key && key + c.N <= keyHi && (n + 1) * c.N == key + c.N
      ensures key + c.N == keyHi <==> n == hi - 1
    {
      MulMono(0, lo, c.N);
      MulMono(lo, n, c.N);
      DistributeAdd(n, 1, c.N);
      MulMono(n + 1, hi, c.N);
      if n + 1 < hi {
        DistributeAdd(n + 1, 1, c.N);
        MulMono(n + 2, hi, c.N);
      }
    }

    /** Block `n` starts at `col`, and the block above it one block later. */
    lemma KeysOf(n: nat, col: nat)
      requires Valid() && BlockAt(n, col)
      ensures KeyAt(n) == col && KeyAt(n + 1) == col + c.N
    {
      KeyAtIsProduct(n);
    }

    lemma FirstStep(n: nat, key: nat)
      requires Valid() && BlockAt(n, key)
      ensures StepAt(n, key).isFirst <==> n == hi - 1
    {
      CeilDivBounds(c.M, c.N);
    }

    lemma StepInBounds(n: nat, key: nat)
      requires Valid() && BlockAt(n, key)
      ensures InBounds(c, x, StepAt(n, key))
    {
      KeysOrdered(n, key);
      if hi - 1 - n > 0 {
        CeilDivBlockEnd(c.sk, c.N, n);
      } else if c.even {
        EvenBlockEnd(c.sk, c.N, n);
      }
    }

    /** The mask of the step for block `n` leaves exactly the scores of the walk's mask. */
    lemma EntryMasked(n: nat, key: nat, i: nat, k: nat)
      requires Valid() && BlockAt(n, key) && i < c.sq && k < c.N && InBounds(c, x, StepAt(n, key))
      ensures MaskedScores(c, x, StepAt(n, key), i)[k]
              == if MaskedRow(i).Sees(key + k) then Fin(MaskedRow(i).s[key + k]) else NegInf
    {
      var p, j := StepAt(n, key), key + k;
      KeysOrdered(n, key);
      QuotientUnique(j, c.N, n);
      if j >= c.sk {
        PastEndMasked(c, hi, n, i, j);
      }
      assert c.Masked(p.causalMask, p.evenMN, i, p.col + k) == c.MaskedAt(hi - 1 - n, i, j);
    }

    /** Row `i` of a block step gets its scheduled scores and minus infinity elsewhere. */
    lemma StepMasksExactly(n: nat, key: nat, i: nat)
      requires Valid() && BlockAt(n, key) && i < c.sq && InBounds(c, x, StepAt(n, key))
      ensures MaskedBlock(MaskedRow(i), key, MaskedScores(c, x, StepAt(n, key), i))
    {
      var q, s := MaskedRow(i), MaskedScores(c, x, StepAt(n, key), i);
      forall k | 0 <= k < c.N
        ensures s[k] == if q.Sees(key + k) then Fin(q.s[key + k]) else NegInf
      {
        EntryMasked(n, key, i, k);
      }
    }

    /** A step without the infinity check is the first one or shows the row at least one key. */
    lemma UncheckedStepSees(n: nat, key: nat, i: nat)
      requires Valid() && BlockAt(n, key) && i < c.sq
      ensures var p := StepAt(n, key);
              p.isFirst || p.checkInf || !MaskedRow(i).SeesNone(key, keyHi)
    {
      var p := StepAt(n, key);
      if !p.isFirst && !p.checkInf {
        KeysOrdered(n, key);
        TailUnmasked(c, hi, n, i, key);
        assert MaskedRow(i).Sees(key);
      }
    }

    /** One block step takes an exact state of row `i` to an exact state that covers one more block. */
    lemma BlockRowStep(sc: Scaling, n: nat, key: nat, above: int, i: nat, st: RowState)
      requires sc.t.Lawful() && Valid() && BlockAt(n, key) && above == key + c.N && i < c.sq
      requires Safe(sc, MaskedRow(i), key, keyHi) && RowSums(sc, this, above, i, st)
      requires InBounds(c, x, StepAt(n, key))
      ensures RowSums(sc, this, key, i, BlockRow(sc, c, x, StepAt(n, key), i, st))
    {
      StepMasksExactly(n, key, i);
      UncheckedStepSees(n, key, i);
      KeysOrdered(n, key);
      FirstStep(n, key);
      RowStep(sc, c, x, StepAt(n, key), i, MaskedRow(i), above, keyHi, st);
    }

    /**
     On the way no infinity is subtracted from itself: in every step of a safe row, the old maximum
     minus the new one and every exponent is a number or minus infinity.
     */
    lemma NoUndefinedDifference(sc: Scaling, n: nat, key: nat, i: nat, st: RowState)
      requires sc.t.Lawful() && Valid() && BlockAt(n, key) && i < c.sq
      requires Safe(sc, MaskedRow(i), key, keyHi) && RowSums(sc, this, key + c.N, i, st)
      requires InBounds(c, x, StepAt(n, key))
      ensures var p := StepAt(n, key); var s := MaskedScores(c, x, p, i); var max := ReduceMax(p.isFirst, st.max, s);
              && (p.isFirst || Score(Sub(st.max, MaxCur(p.checkInf, max))))
              && forall k :: 0 <= k < c.N ==> Score(Sub(Mul(s[k], Fin(ScaleLog2(sc))), MaxScaled(max, ScaleLog2(sc))))
    {
      var p, q := StepAt(n, key), MaskedRow(i);
      var s := MaskedScores(c, x, p, i);
      StepMasksExactly(n, key, i);
      UncheckedStepSees(n, key, i);
      KeysOrdered(n, key);
      FirstStep(n, key);
      ReduceMaxMeaning(q, key, key + c.N, keyHi, p.isFirst, st.max, s);
      var max := ReduceMax(p.isFirst, st.max, s);
      if !p.isFirst {
        MaximaChecked(q, key, key + c.N, keyHi, p.checkInf, st.max, max);
        DifferenceDefined(p.checkInf, st.max, max);
      }
      ExponentsDefined(sc, q, key, keyHi, s, max);
    }

    /** A row that is not safe is spoiled from the first block with a masked score on. */
    lemma BlockRowSpoils(sc: Scaling, n: nat, key: nat, above: int, i: nat, st: RowState)
      requires sc.t.Lawful() && Valid() && BlockAt(n, key) && above == key + c.N && i < c.sq
      requires RowHolds(sc, this, above, i, st) && !Safe(sc, MaskedRow(i), key, keyHi)
      requires InBounds(c, x, StepAt(n, key))
      ensures SpoiledRow(sc, MaskedRow(i), key, keyHi, c.N, BlockRow(sc, c, x, StepAt(n, key), i, st))
    {
      var p, q := StepAt(n, key), MaskedRow(i);
      KeysOrdered(n, key);
      FirstStep(n, key);
      StepMasksExactly(n, key, i);
      if Safe(sc, q, above, keyHi) {
        var j :| key <= j < keyHi && !q.Sees(j);
        if !p.isFirst {
          SafeStateFinite(sc, q, x.v, x.cols, above, keyHi, st);
        }
        RowSpoils(sc, c, x, p, i, q, above, keyHi, st, j);
      } else {
        UncheckedStepSees(n, key, i);
        RowStaysSpoiled(sc, c, x, p, i, q, above, keyHi, st);
      }
    }

    lemma RowHoldsStep(sc: Scaling, n: nat, key: nat, above: int, i: nat, st: RowState)
      requires sc.t.Lawful() && Valid() && BlockAt(n, key) && above == key + c.N
      requires RowHolds(sc, this, above, i, st) && InBounds(c, x, StepAt(n, key))
      ensures RowHolds(sc, this, key, i, BlockRow(sc, c, x, StepAt(n, key), i, st))
    {
      KeysOrdered(n, key);
      if i < c.sq {
        if Safe(sc, MaskedRow(i), key, keyHi) {
          BlockRowStep(sc, n, key, above, i, st);
        } else {
          BlockRowSpoils(sc, n, key, above, i, st);
        }
      }
    }
  }

  /** The state is exact for the keys from `key` on: the initial state before the first block. */
  ghost predicate RowSums(sc: Scaling, w: Walk, key: int, i: nat, st: RowState)
    requires w.x.Valid(w.c) && w.c.N > 0 && i < w.c.sq
  {
    && Shaped(w.x, st)
    && if key == w.keyHi then forall d :: 0 <= d < w.x.cols ==> st.acc[d] == Fin(0.0)
       else Represents(sc, w.MaskedRow(i), w.x.v, w.x.cols, key, w.keyHi, st)
  }

  ghost predicate RowHolds(sc: Scaling, w: Walk, key: int, i: nat, st: RowState)
    requires w.x.Valid(w.c) && w.c.N > 0
  {
    && Shaped(w.x, st)
    && (i < w.c.sq ==>
          if Safe(sc, w.MaskedRow(i), key, w.keyHi) then RowSums(sc, w, key, i, st)
          else SpoiledRow(sc, w.MaskedRow(i), key, w.keyHi, w.c.N, st))
  }

  ghost predicate RowsHold(sc: Scaling, w: Walk, key: int, states: seq<RowState>)
    requires w.x.Valid(w.c) && w.c.N > 0
  {
    forall r :: 0 <= r < |states| ==> RowHolds(sc, w, key, w.row + r, states[r])
  }

  ghost predicate RowsShaped(x: Inputs, states: seq<RowState>) {
    forall r :: 0 <= r < |states| ==> Shaped(x, states[r])
  }

  ghost predicate RowStepped(sc: Scaling, c: Config, x: Inputs, p: Step, i: nat, st: RowState, st': RowState)
    requires InBounds(c, x, p)
  {
    Shaped(x, st) && st' == BlockRow(sc, c, x, p, i, st)
  }

  /** One block step took the rows from query `row` on from `states` to `next`. */
  ghost predicate RowsStepped(sc: Scaling, c: Config, x: Inputs, p: Step, row: nat, states: seq<RowState>,
                              next: seq<RowState>)
    requires InBounds(c, x, p)
  {
    |next| == |states| && forall r :: 0 <= r < |states| ==> RowStepped(sc, c, x, p, row + r, states[r], next[r])
  }

  lemma RowsShapedWhenHeld(sc: Scaling, w: Walk, key: int, states: seq<RowState>)
    requires w.x.Valid(w.c) && w.c.N > 0 && RowsHold(sc, w, key, states)
    ensures RowsShaped(w.x, states)
  {
    forall r | 0 <= r < |states|
      ensures Shaped(w.x, states[r])
    {
      assert RowHolds(sc, w, key, w.row + r, states[r]);
    }
  }

  lemma RowHoldsStepped(sc: Scaling, w: Walk, n: nat, p: Step, above: int, i: nat, st: RowState, st': RowState)
    requires sc.t.Lawful() && w.Valid() && w.BlockAt(n, p.col) && p == w.StepAt(n, p.col) && InBounds(w.c, w.x, p)
    requires above == p.col + w.c.N && RowHolds(sc, w, above, i, st) && RowStepped(sc, w.c, w.x, p, i, st, st')
    ensures RowHolds(sc, w, p.col, i, st')
  {
    w.RowHoldsStep(sc, n, p.col, above, i, st);
  }

  /** One iteration keeps every row exact. */
  lemma RowsHoldStep(sc: Scaling, w: Walk, n: nat, p: Step, above: int, states: seq<RowState>, next: seq<RowState>)
    requires sc.t.Lawful() && w.Valid() && w.BlockAt(n, p.col) && p == w.StepAt(n, p.col) && InBounds(w.c, w.x, p)
    requires above == p.col + w.c.N && RowsHold(sc, w, above, states)
    requires RowsStepped(sc, w.c, w.x, p, w.row, states, next)
    ensures RowsHold(sc, w, p.col, next)
  {
    forall r | 0 <= r < |next|
      ensures RowHolds(sc, w, p.col, w.row + r, next[r])
    {
      assert RowHolds(sc, w, above, w.row + r, states[r]);
      assert RowStepped(sc, w.c, w.x, p, w.row + r, states[r], next[r]);
      RowHoldsStepped(sc, w, n, p, above, w.row + r, states[r], next[r]);
    }
  }

  // ----- The registers of a tile

  /** `reduce_max` on every row: the lanes of a quad fold their columns and join, and all hold the row's maximum. */
  method ReduceMaxRows(zeroInit: bool, scores: array<seq<F>>, max: array<F>)
    requires scores.Length == max.Length
    modifies max
    ensures forall r :: 0 <= r < max.Length ==> max[r] == ReduceMax(zeroInit, old(max[r]), scores[r])
  {
    for r := 0 to max.Length
      invariant forall k :: 0 <= k < max.Length ==>
        max[k] == if k < r then ReduceMax(zeroInit, old(max[k]), scores[k]) else old(max[k])
    {
      QuadMaxIsMax(zeroInit, max[r], scores[r], 0);
      var lanes := QuadMax(zeroInit, max[r], scores[r]);
      max[r] := lanes[0];
    }
  }

  /** A row's lane sums after its probabilities were added, or not yet. */
  ghost predicate Summed(zeroInit: bool, done: bool, sums: seq<F>, p: seq<F>, sums': seq<F>) {
    |sums| == 4 && sums' == if done then ReduceSums(zeroInit, sums, p) else sums
  }

  /** `reduce_sum` on every row: each lane adds the columns it holds to its own sum. */
  method ReduceSumRows(zeroInit: bool, scores: array<seq<F>>, sums: array<seq<F>>)
    requires scores.Length == sums.Length && scores != sums && forall r :: 0 <= r < sums.Length ==> |sums[r]| == 4
    modifies sums
    ensures forall r :: 0 <= r < sums.Length ==> Summed(zeroInit, true, old(sums[r]), scores[r], sums[r])
  {
    for r := 0 to sums.Length
      invariant forall k :: 0 <= k < sums.Length ==> Summed(zeroInit, k < r, old(sums[k]), scores[k], sums[k])
    {
      sums[r] := ReduceSums(zeroInit, sums[r], scores[r]);
    }
  }

  /** A row's sums and accumulator, multiplied by `f` or not yet. */
  ghost predicate Multiplied(f: F, done: bool, sums: seq<F>, acc: seq<F>, sums': seq<F>, acc': seq<F>) {
    if done then sums' == ScaleAcc(sums, f) && acc' == ScaleAcc(acc, f) else sums' == sums && acc' == acc
  }

  method RescaleRows(t: Transcendental, checkInf: bool, maxPrev: seq<F>, max: array<F>, sums: array<seq<F>>,
                     accO: array<seq<F>>, scaleLog2: real)
    requires |maxPrev| == max.Length == sums.Length == accO.Length && sums != accO
    modifies sums, accO
    ensures forall r :: 0 <= r < max.Length ==>
      var f := RescaleFactor(t, checkInf, maxPrev[r], max[r], scaleLog2);
      Multiplied(f, true, old(sums[r]), old(accO[r]), sums[r], accO[r])
  {
    for r := 0 to max.Length
      invariant forall k :: 0 <= k < max.Length ==>
        var f := RescaleFactor(t, checkInf, maxPrev[k], max[k], scaleLog2);
        Multiplied(f, k < r, old(sums[k]), old(accO[k]), sums[k], accO[k])
    {
      var scoresScale := RescaleFactor(t, checkInf, maxPrev[r], max[r], scaleLog2);
      sums[r] := ScaleAcc(sums[r], scoresScale);
      accO[r] := ScaleAcc(accO[r], scoresScale);
    }
  }

  method ScaleApplyExp2Rows(t: Transcendental, scores: array<seq<F>>, max: array<F>, scaleLog2: real)
    requires scores.Length == max.Length
    modifies scores
    ensures forall r :: 0 <= r < max.Length ==> scores[r] == ScaleApplyExp2(t, old(scores[r]), max[r], scaleLog2)
  {
    for r := 0 to max.Length
      invariant forall k :: 0 <= k < max.Length ==>
        scores[k] == if k < r then ScaleApplyExp2(t, old(scores[k]), max[k], scaleLog2) else old(scores[k])
    {
      scores[r] := ScaleApplyExp2(t, scores[r], max[r], scaleLog2);
    }
  }

  /** `o` and `lse` are the normalised rows. */
  ghost predicate Normalized(t: Transcendental, split: bool, scale: real, states: seq<RowState>, o: seq<seq<F>>,
                             lse: seq<F>) {
    && |o| == |lse| == |states|
    && forall r :: 0 <= r < |states| ==>
      |states[r].sums| == 4 && (o[r], lse[r]) == NormalizeRow(t, split, states[r], scale)
  }

  /** `flash::Softmax`: the running maximum of each row of the tile, and the sums of its four lanes. */
  class Softmax {
    const rowMax: array<F>
    const rowSum: array<seq<F>>

    constructor (rows: nat)
      ensures rowMax.Length == rowSum.Length == rows && fresh(rowMax) && fresh(rowSum)
      ensures forall r :: 0 <= r < rows ==> |rowSum[r]| == 4
    {
      rowMax := new F[rows];
      rowSum := new seq<F>[rows](_ => Quad(NaN));
    }

    /** The buffers are distinct and have one entry per row. */
    ghost predicate Fits(accO: array<seq<F>>, rows: nat)
      reads rowSum
    {
      && rowSum != accO && rowMax.Length == rowSum.Length == accO.Length == rows
      && forall r :: 0 <= r < rows ==> |rowSum[r]| == 4
    }

    ghost function State(accO: array<seq<F>>, r: int): RowState
      requires rowMax.Length == rowSum.Length == accO.Length && 0 <= r < accO.Length
      reads rowMax, rowSum, accO
    {
      RowState(rowMax[r], rowSum[r], accO[r])
    }

    ghost function States(accO: array<seq<F>>): (states: seq<RowState>)
      requires rowMax.Length == rowSum.Length == accO.Length
      reads rowMax, rowSum, accO
      ensures |states| == accO.Length && forall r {:trigger states[r]} :: 0 <= r < |states| ==>
              states[r] == State(accO, r)
    {
      seq(accO.Length, r requires 0 <= r < accO.Length reads rowMax, rowSum, accO => State(accO, r))
    }

    /** Every row of the tile holds exact sums over the keys from `key` on of a walk. */
    ghost predicate Holds(sc: Scaling, w: Walk, key: int, accO: array<seq<F>>)
      requires w.x.Valid(w.c) && w.c.N > 0
      reads rowMax, rowSum, accO
    {
      Fits(accO, w.c.M) && RowsHold(sc, w, key, States(accO))
    }

    /** The state is exact for the blocks from `n` on. */
    ghost predicate HoldsFrom(sc: Scaling, w: Walk, n: nat, accO: array<seq<F>>)
      requires w.x.Valid(w.c) && w.c.N > 0
      reads rowMax, rowSum, accO
    {
      Holds(sc, w, w.KeyAt(n), accO)
    }

    method RescaleO(t: Transcendental, isFirst: bool, checkInf: bool, scores: array<seq<F>>, accO: array<seq<F>>,
                    scaleLog2: real)
      requires Fits(accO, scores.Length) && scores != accO && scores != rowSum
      modifies rowMax, rowSum, scores, accO
      ensures Fits(accO, scores.Length)
      ensures forall r :: 0 <= r < scores.Length ==>
        (State(accO, r), scores[r]) == RescaleRow(t, isFirst, checkInf, old(State(accO, r)), old(scores[r]), scaleLog2)
      ensures forall r :: 0 <= r < scores.Length ==> |scores[r]| == |old(scores[r])| && |accO[r]| == |old(accO[r])|
    {
      if isFirst {
        ReduceMaxRows(true, scores, rowMax);
        ScaleApplyExp2Rows(t, scores, rowMax, scaleLog2);
        ReduceSumRows(true, scores, rowSum);
      } else {
        var maxPrev := rowMax[..];
        ReduceMaxRows(false, scores, rowMax);
        RescaleRows(t, checkInf, maxPrev, rowMax, rowSum, accO, scaleLog2);
        ScaleApplyExp2Rows(t, scores, rowMax, scaleLog2);
        ReduceSumRows(false, scores, rowSum);
      }
    }

    method NormalizeLse(t: Transcendental, split: bool, accO: array<seq<F>>, scale: real) returns (lse: seq<F>)
      requires Fits(accO, accO.Length)
      modifies accO
      ensures Normalized(t, split, scale, old(States(accO)), accO[..], lse)
    {
      lse := [];
      for r := 0 to accO.Length
        invariant |lse| == r
        invariant forall k :: r <= k < accO.Length ==> accO[k] == old(accO[k])
        invariant forall k :: 0 <= k < r ==> (accO[k], lse[k]) == NormalizeRow(t, split, old(State(accO, k)), scale)
      {
        QuadSumIsTotal(rowSum[r], 0);
        var lanes := QuadAllreduce(rowSum[r], Add);
        var (out, l) := NormalizeBy(t, split, rowMax[r], lanes[0], accO[r], scale);
        accO[r] := out;
        lse := lse + [l];
      }
    }
  }

  /** `Mask::apply_mask` on the score tile, with the thread layout flattened to rows. */
  method ApplyMask(c: Config, causalMask: bool, evenMN: bool, scores: array<seq<F>>, row: int, col: int)
    modifies scores
    ensures forall r :: 0 <= r < scores.Length ==>
      scores[r] == MaskRow(c, causalMask, evenMN, row + r, col, old(scores[r]))
  {
    for r := 0 to scores.Length
      invariant forall k :: 0 <= k < scores.Length ==>
        scores[k] == if k < r then MaskRow(c, causalMask, evenMN, row + k, col, old(scores[k])) else old(scores[k])
    {
      scores[r] := MaskRow(c, causalMask, evenMN, row + r, col, scores[r]);
    }
  }

  /** `gemm_rs`: the accumulator plus the product of the probabilities and a block of values. */
  method Gemm(accO: array<seq<F>>, probs: array<seq<F>>, v: seq<seq<real>>, cols: nat)
    requires accO.Length == probs.Length && accO != probs && Matrix(v, |v|, cols)
    requires forall r :: 0 <= r < accO.Length ==> |accO[r]| == cols && |probs[r]| == |v|
    modifies accO
    ensures forall r :: 0 <= r < accO.Length ==> accO[r] == GemmRow(old(accO[r]), probs[r], v)
  {
    for r := 0 to accO.Length
      invariant forall k :: 0 <= k < accO.Length ==>
        accO[k] == if k < r then GemmRow(old(accO[k]), probs[k], v) else old(accO[k])
    {
      accO[r] := GemmRow(accO[r], probs[r], v);
    }
  }

  /** The masked score tile of a block step, for the tile whose first query is `row`. */
  method ScoreTile(c: Config, x: Inputs, row: nat, p: Step) returns (scores: array<seq<F>>)
    requires InBounds(c, x, p)
    ensures fresh(scores) && scores.Length == c.M
    ensures forall r :: 0 <= r < c.M ==> scores[r] == MaskedScores(c, x, p, row + r)
  {
    scores := new seq<F>[c.M](r requires 0 <= r < c.M => LoadScores(c, x, row + r, p.col, p.predicated));
    ApplyMask(c, p.causalMask, p.evenMN, scores, row, p.col);
  }

  /** One iteration of either loop: scores and mask, softmax, accumulation. */
  method BlockStep(sc: Scaling, c: Config, x: Inputs, row: nat, p: Step, softmax: Softmax, accO: array<seq<F>>)
    requires InBounds(c, x, p) && softmax.Fits(accO, c.M) && RowsShaped(x, softmax.States(accO))
    modifies softmax.rowMax, softmax.rowSum, accO
    ensures softmax.Fits(accO, c.M)
    ensures RowsStepped(sc, c, x, p, row, old(softmax.States(accO)), softmax.States(accO))
  {
    forall r | 0 <= r < c.M
      ensures |accO[r]| == x.cols
    {
      assert Shaped(x, softmax.States(accO)[r]);
    }
    var scores := ScoreTile(c, x, row, p);
    softmax.RescaleO(sc.t, p.isFirst, p.checkInf, scores, accO, ScaleLog2(sc));
    Gemm(accO, scores, LoadV(c, x, p.col, p.predicated), x.cols);
    forall r | 0 <= r < c.M
      ensures RowStepped(sc, c, x, p, row + r, old(softmax.State(accO, r)), softmax.State(accO, r))
    {
      assert Shaped(x, old(softmax.States(accO))[r]);
    }
  }

  // ----- The loops

  /** One iteration, with what it keeps about every row. */
  method Advance(sc: Scaling, w: Walk, n: nat, p: Step, ghost above: int, softmax: Softmax, accO: array<seq<F>>)
    requires sc.t.Lawful() && w.Valid() && w.BlockAt(n, p.col) && p == w.StepAt(n, p.col)
    requires above == p.col + w.c.N && softmax.Holds(sc, w, above, accO)
    modifies softmax.rowMax, softmax.rowSum, accO
    ensures softmax.Holds(sc, w, p.col, accO)
  {
    w.StepInBounds(n, p.col);
    ghost var states := softmax.States(accO);
    RowsShapedWhenHeld(sc, w, above, states);
    BlockStep(sc, w.c, w.x, w.row, p, softmax, accO);
    RowsHoldStep(sc, w, n, p, above, states, softmax.States(accO));
  }

  /** The iteration for block `n`, in the masking loop or in the tail loop. */
  method Iterate(sc: Scaling, w: Walk, n: nat, ghost done: nat, masking: bool, maskingStep: nat, softmax: Softmax,
                 accO: array<seq<F>>)
    requires sc.t.Lawful() && w.Valid() && w.lo <= n < w.hi && done == n + 1 && softmax.HoldsFrom(sc, w, done, accO)
    requires if masking then maskingStep == w.hi - 1 - n < w.c.MaskingSteps() else w.hi - 1 - n >= w.c.MaskingSteps()
    modifies softmax.rowMax, softmax.rowSum, accO
    ensures softmax.HoldsFrom(sc, w, n, accO)
  {
    var col := n * w.c.N;
    w.KeysOf(n, col);
    var p := if masking then MaskingStep(w.c, w.checkInf, maskingStep, col) else TailStep(w.c, col);
    Advance(sc, w, n, p, w.KeyAt(done), softmax, accO);
  }

  /** The first iterations, which mask; returns the block the tail loop starts with, above which all are `done`. */
  method MaskingLoop(sc: Scaling, w: Walk, softmax: Softmax, accO: array<seq<F>>) returns (nBlock: int, ghost done: nat)
    requires sc.t.Lawful() && w.Valid() && softmax.HoldsFrom(sc, w, w.hi, accO)
    modifies softmax.rowMax, softmax.rowSum, accO
    ensures w.lo <= done == nBlock + 1 < w.hi
    ensures nBlock >= w.lo ==> w.hi - 1 - nBlock >= w.c.MaskingSteps()
    ensures softmax.HoldsFrom(sc, w, done, accO)
  {
    var steps := w.c.MaskingSteps();
    var maskingStep := 0;
    nBlock, done := w.hi - 1, w.hi;
    assert steps >= 1 by {
      CeilDivBounds(w.c.M, w.c.N);
    }
    while maskingStep < steps
      invariant 0 <= maskingStep <= steps && nBlock == w.hi - 1 - maskingStep && w.lo <= done == nBlock + 1
      invariant maskingStep < steps ==> nBlock >= w.lo
      invariant softmax.HoldsFrom(sc, w, done, accO)
    {
      Iterate(sc, w, nBlock, done, true, maskingStep, softmax, accO);
      done := nBlock;
      if steps > 1 && nBlock <= w.lo {
        nBlock := nBlock - 1;
        break;
      }
      maskingStep, nBlock := maskingStep + 1, nBlock - 1;
    }
  }

  /** The remaining iterations, which mask nothing unless the attention is local. */
  method TailLoop(sc: Scaling, w: Walk, start: int, ghost done: nat, softmax: Softmax, accO: array<seq<F>>)
    requires sc.t.Lawful() && w.Valid() && w.lo <= done == start + 1 < w.hi
    requires start >= w.lo ==> w.hi - 1 - start >= w.c.MaskingSteps()
    requires softmax.HoldsFrom(sc, w, done, accO)
    modifies softmax.rowMax, softmax.rowSum, accO
    ensures softmax.HoldsFrom(sc, w, w.lo, accO)
  {
    var nBlock := start;
    ghost var above := done;
    while nBlock >= w.lo
      invariant w.lo <= above == nBlock + 1 <= start + 1 && softmax.HoldsFrom(sc, w, above, accO)
    {
      Iterate(sc, w, nBlock, above, false, 0, softmax, accO);
      above := nBlock;
      nBlock := nBlock - 1;
    }
  }

  /**
   What is left of a row when the keys `walked` were read: its attention over `keys` if the row is
   safe; otherwise no number, and the log-sum-exp `spoilt` or, with a negative scale, plus infinity.
   */
  ghost predicate RowAttends(sc: Scaling, row: Row, v: seq<seq<real>>, cols: nat, walked: Span, keys: Span, none: F,
                             spoilt: F, out: RowResult)
    requires Matrix(v, |row.s|, cols)
  {
    && |out.o| == cols
    && if Safe(sc, row, walked.lo, walked.hi) then
         IsAttention(sc, row, v, cols, keys.lo, keys.hi, none, out.o, out.lse)
       else NoNumbers(out.o) && SpoiltLse(sc.scale, spoilt, out.lse)
  }

  /** A row with at least one column gets its attention if and only if it is safe. */
  lemma AttentionIffSafe(sc: Scaling, row: Row, v: seq<seq<real>>, cols: nat, walked: Span, keys: Span, none: F,
                         spoilt: F, out: RowResult)
    requires Matrix(v, |row.s|, cols) && cols > 0 && RowAttends(sc, row, v, cols, walked, keys, none, spoilt, out)
    ensures IsAttention(sc, row, v, cols, keys.lo, keys.hi, none, out.o, out.lse)
            <==> Safe(sc, row, walked.lo, walked.hi)
  {
    if IsAttention(sc, row, v, cols, keys.lo, keys.hi, none, out.o, out.lse) {
      assert out.o[0].Fin?;
    }
  }

  /**
   Every existing row of the tile that starts at query `row` attends to `keys`, with the mask of a
   walk that ends at block `hi`.
   */
  ghost predicate TileAttends(sc: Scaling, c: Config, x: Inputs, row: nat, hi: int, keys: Span, none: F,
                              o: seq<seq<F>>, lse: seq<F>)
    requires x.Valid(c) && c.N > 0
  {
    && |o| == |lse| == c.M
    && (forall r :: 0 <= r < c.M ==> |o[r]| == x.cols)
    && forall r :: 0 <= r < c.M && row + r < c.sq ==>
      RowAttends(sc, ScheduledRow(c, x, hi, row + r), x.v, x.cols, keys, keys, none,
                 Spoilt(sc.scale, c.N, none), RowResult(o[r], lse[r]))
  }

  lemma NormalizedRowAttends(sc: Scaling, w: Walk, split: bool, i: nat, st: RowState)
    requires sc.t.Lawful() && w.x.Valid(w.c) && w.c.N > 0 && w.keyLo < w.keyHi && i < w.c.sq
    requires RowHolds(sc, w, w.keyLo, i, st)
    ensures var (out, lse) := NormalizeRow(sc.t, split, st, sc.scale);
            RowAttends(sc, w.MaskedRow(i), w.x.v, w.x.cols, w.Keys(), w.Keys(), NoKeys(split),
                       Spoilt(sc.scale, w.c.N, NoKeys(split)), RowResult(out, lse))
  {
    if Safe(sc, w.MaskedRow(i), w.keyLo, w.keyHi) {
      NormalizeMeaning(sc, w.MaskedRow(i), w.x.v, w.x.cols, w.keyLo, w.keyHi, split, st);
    } else {
      NormalizeSpoiled(sc, w.MaskedRow(i), w.keyLo, w.keyHi, w.c.N, split, st);
    }
  }

  lemma NormalizedTileAttends(sc: Scaling, w: Walk, split: bool, states: seq<RowState>, o: seq<seq<F>>, lse: seq<F>)
    requires sc.t.Lawful() && w.x.Valid(w.c) && w.c.N > 0 && w.keyLo < w.keyHi && |states| == w.c.M
    requires RowsHold(sc, w, w.keyLo, states) && Normalized(sc.t, split, sc.scale, states, o, lse)
    ensures TileAttends(sc, w.c, w.x, w.row, w.hi, w.Keys(), NoKeys(split), o, lse)
  {
    forall r | 0 <= r < w.c.M
      ensures |o[r]| == w.x.cols
      ensures w.row + r < w.c.sq ==>
        RowAttends(sc, w.MaskedRow(w.row + r), w.x.v, w.x.cols, w.Keys(), w.Keys(), NoKeys(split),
                   Spoilt(sc.scale, w.c.N, NoKeys(split)), RowResult(o[r], lse[r]))
    {
      assert RowHolds(sc, w, w.keyLo, w.row + r, states[r]);
      if w.row + r < w.c.sq {
        NormalizedRowAttends(sc, w, split, w.row + r, states[r]);
      }
    }
  }

  /** The normalisation after the last block. */
  method Epilogue(sc: Scaling, w: Walk, split: bool, softmax: Softmax, accO: array<seq<F>>)
    returns (o: seq<seq<F>>, lse: seq<F>)
    requires sc.t.Lawful() && w.x.Valid(w.c) && w.c.N > 0 && w.keyLo < w.keyHi
    requires softmax.Holds(sc, w, w.keyLo, accO)
    modifies accO
    ensures TileAttends(sc, w.c, w.x, w.row, w.hi, w.Keys(), NoKeys(split), o, lse)
  {
    ghost var states := softmax.States(accO);
    lse := softmax.NormalizeLse(sc.t, split, accO, sc.scale);
    o := accO[..];
    NormalizedTileAttends(sc, w, split, states, o, lse);
  }

  /**
   The masking loop with its early break, the tail loop and the epilogue, shared by both kernels.
   Every row of the tile ends with its exact attention over the keys of the walked blocks, under
   the mask that the walk applies.
   */
  method WalkTile(sc: Scaling, w: Walk, split: bool) returns (o: seq<seq<F>>, lse: seq<F>)
    requires sc.t.Lawful() && w.Valid()
    ensures TileAttends(sc, w.c, w.x, w.row, w.hi, w.Keys(), NoKeys(split), o, lse)
  {
    var softmax := new Softmax(w.c.M);
    var accO := new seq<F>[w.c.M](_ => seq(w.x.cols, _ => Fin(0.0)));
    w.KeysOrdered(w.lo, w.keyLo);
    w.KeyAtIsProduct(w.lo);
    w.KeyAtIsProduct(w.hi);
    assert RowsHold(sc, w, w.keyHi, softmax.States(accO));
    assert softmax.HoldsFrom(sc, w, w.hi, accO);
    var nBlock, done := MaskingLoop(sc, w, softmax, accO);
    TailLoop(sc, w, nBlock, done, softmax, accO);
    o, lse := Epilogue(sc, w, split, softmax, accO);
  }
}
