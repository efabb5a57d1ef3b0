/**
 The butterfly all-reduce within a warp (pod_attn/pod_attn/utils.h): lanes exchange values with
 the lane whose number differs in one bit, in halving strides.
 */
module Allreduce {
  import opened IntMath

  function Apply<T>(op: (T, T) -> T, a: T, b: T): T {
    op(a, b)
  }

  ghost predicate CommutesAt<T>(op: (T, T) -> T, a: T, b: T) {
    Apply(op, a, b) == Apply(op, b, a)
  }

  ghost predicate AssociatesAt<T>(op: (T, T) -> T, a: T, b: T, c: T) {
    Apply(op, Apply(op, a, b), c) == Apply(op, a, Apply(op, b, c))
  }

  ghost predicate Commutes<T(!new)>(op: (T, T) -> T) {
    forall a, b :: CommutesAt(op, a, b)
  }

  ghost predicate Associates<T(!new)>(op: (T, T) -> T) {
    forall a, b, c :: AssociatesAt(op, a, b, c)
  }

  /** The lane a lane exchanges with: `lane ^ offset` for an offset that is a power of two. */
  function Partner(lane: nat, offset: nat): int
    requires offset > 0
  {
    if (lane / offset) % 2 == 0 then lane + offset else lane - offset
  }

  /** The lanes come in whole groups of `threads`. */
  predicate Grouped<T>(x: seq<T>, threads: nat) {
    threads > 0 && |x| % threads == 0
  }

  /** A group of `2 * offset` lanes is a lower and an upper half, and partners are in different halves. */
  lemma PartnerInGroup(lane: nat, offset: nat, size: nat)
    requires offset > 0 && size % (2 * offset) == 0 && lane < size
    ensures var g := lane / (2 * offset) * (2 * offset);
            && g <= lane < g + 2 * offset <= size
            && (lane < g + offset <==> (lane / offset) % 2 == 0)
            && lane / offset * offset == (if lane < g + offset then g else g + offset)
            && 0 <= Partner(lane, offset) < size
  {
    var t, q := 2 * offset, lane / (2 * offset);
    QuotientBounds(lane, t);
    DistributeAdd(q, 1, t);
    DivMod(size, t);
    QuotientBounds(size, t);
    if size / t < q + 1 {
      MulMono(size / t, q, t);
    }
    MulMono(q + 1, size / t, t);
    assert q * t == (2 * q) * offset;
    DistributeAdd(2 * q, 1, offset);
    DistributeAdd(2 * q + 1, 1, offset);
    QuotientUnique(lane, offset, if lane < q * t + offset then 2 * q else 2 * q + 1);
  }

  /** One `__shfl_xor_sync` and one application of the operation, on all lanes. */
  function Exchange<T>(x: seq<T>, offset: nat, op: (T, T) -> T): (y: seq<T>)
    requires offset > 0 && Grouped(x, 2 * offset)
    ensures |y| == |x|
  {
    seq(|x|, i requires 0 <= i < |x| => PartnerInGroup(i, offset, |x|); Apply(op, x[i], x[Partner(i, offset)]))
  }

  predicate PowerOfTwo(n: nat) {
    n == 1 || (n > 0 && n % 2 == 0 && PowerOfTwo(n / 2))
  }

  lemma HalfGrouped<T>(x: seq<T>, threads: nat)
    requires threads > 0 && threads % 2 == 0 && Grouped(x, threads)
    ensures Grouped(x, threads / 2)
  {
    var h, q := threads / 2, |x| / threads;
    DivMod(|x|, threads);
    assert q * (2 * h) == (2 * q) * h;
    DistributeAdd(2 * q, 1, h);
    QuotientUnique(|x|, h, 2 * q);
  }

  /** `Allreduce<threads>::run` on all lanes of a warp. */
  function Run<T>(x: seq<T>, threads: nat, op: (T, T) -> T): (y: seq<T>)
    requires PowerOfTwo(threads) && threads >= 2 && Grouped(x, threads)
    ensures |y| == |x|
    decreases threads
  {
    var y := Exchange(x, threads / 2, op);
    if threads == 2 then y
    else
      HalfGrouped(x, threads);
      Run(y, threads / 2, op)
  }

  /** The operation over lanes `lo` to `hi`, from the left. */
  function Fold<T>(x: seq<T>, lo: nat, hi: nat, op: (T, T) -> T): T
    requires lo < hi <= |x|
  {
    if hi == lo + 1 then x[lo] else Apply(op, Fold(x, lo, hi - 1, op), x[hi - 1])
  }

  lemma {:induction false} FoldSplits<T(!new)>(x: seq<T>, lo: nat, mid: nat, hi: nat, op: (T, T) -> T)
    requires lo < mid < hi <= |x| && Associates(op)
    ensures Fold(x, lo, hi, op) == Apply(op, Fold(x, lo, mid, op), Fold(x, mid, hi, op))
    decreases hi
  {
    if hi > mid + 1 {
      FoldSplits(x, lo, mid, hi - 1, op);
      assert AssociatesAt(op, Fold(x, lo, mid, op), Fold(x, mid, hi - 1, op), x[hi - 1]);
    }
  }

  lemma Interchange<T(!new)>(op: (T, T) -> T, a: T, b: T, c: T, d: T)
    requires Associates(op) && Commutes(op)
    ensures Apply(op, Apply(op, a, b), Apply(op, c, d)) == Apply(op, Apply(op, a, c), Apply(op, b, d))
  {
    assert AssociatesAt(op, a, b, Apply(op, c, d));
    assert AssociatesAt(op, b, c, d) && CommutesAt(op, b, c) && AssociatesAt(op, c, b, d);
    assert AssociatesAt(op, a, c, Apply(op, b, d));
  }

  /** Lanes `lo` to `lo + n` of `y` hold their own value of `x` combined with that of the lane `shift` away. */
  ghost predicate Pairs<T>(x: seq<T>, y: seq<T>, lo: nat, n: nat, shift: int, op: (T, T) -> T) {
    && |y| == |x| && lo + n <= |x| && 0 <= lo + shift && lo + shift + n <= |x|
    && forall j :: lo <= j < lo + n ==> y[j] == Apply(op, x[j], x[j + shift])
  }

  /** Folding lanes that each hold two lanes' values folds both groups. */
  lemma {:induction false} FoldOfPairs<T(!new)>(x: seq<T>, y: seq<T>, lo: nat, n: nat, shift: int, op: (T, T) -> T)
    requires Associates(op) && Commutes(op) && n > 0 && Pairs(x, y, lo, n, shift, op)
    ensures Fold(y, lo, lo + n, op) == Apply(op, Fold(x, lo, lo + n, op), Fold(x, lo + shift, lo + shift + n, op))
    decreases n
  {
    var j := lo + n - 1;
    assert y[j] == Apply(op, x[j], x[j + shift]);
    if n > 1 {
      FoldOfPairs(x, y, lo, n - 1, shift, op);
      Interchange(op, Fold(x, lo, j, op), Fold(x, lo + shift, j + shift, op), x[j], x[j + shift]);
    }
  }

  lemma LaneOfHalf(i: nat, offset: nat, size: nat, lane: nat)
    requires offset > 0 && size % (2 * offset) == 0 && i < size
    requires i / offset * offset <= lane < i / offset * offset + offset
    ensures var g := i / (2 * offset) * (2 * offset);
            lane < size && Partner(lane, offset) == if i < g + offset then lane + offset else lane - offset
  {
    PartnerInGroup(i, offset, size);
    DistributeAdd(i / offset, 1, offset);
    QuotientUnique(lane, offset, i / offset);
  }

  lemma ExchangePairs<T>(x: seq<T>, offset: nat, op: (T, T) -> T, i: nat, g: nat, h: nat)
    requires offset > 0 && Grouped(x, 2 * offset) && i < |x|
    requires g == i / (2 * offset) * (2 * offset) && h == i / offset * offset
    ensures Pairs(x, Exchange(x, offset, op), h, offset, if h == g then offset else 0 - offset, op)
  {
    PartnerInGroup(i, offset, |x|);
    var y := Exchange(x, offset, op);
    forall j | h <= j < h + offset
      ensures y[j] == Apply(op, x[j], x[if h == g then j + offset else j - offset])
    {
      LaneOfHalf(i, offset, |x|, j);
    }
  }

  lemma HalfHoldsWhole<T(!new)>(x: seq<T>, y: seq<T>, g: nat, h: nat, offset: nat, op: (T, T) -> T)
    requires Associates(op) && Commutes(op) && offset > 0 && g + 2 * offset <= |x| && (h == g || h == g + offset)
    requires Pairs(x, y, h, offset, if h == g then offset else 0 - offset, op)
    ensures Fold(y, h, h + offset, op) == Fold(x, g, g + 2 * offset, op)
  {
    FoldOfPairs(x, y, h, offset, if h == g then offset else 0 - offset, op);
    FoldSplits(x, g, g + offset, g + 2 * offset, op);
    assert CommutesAt(op, Fold(x, g, g + offset, op), Fold(x, g + offset, g + 2 * offset, op));
  }

  /** An exchange leaves the same fold in both halves of a group: that of the whole group. */
  lemma ExchangeFolds<T(!new)>(x: seq<T>, offset: nat, op: (T, T) -> T, i: nat, g: nat, h: nat)
    requires Associates(op) && Commutes(op) && offset > 0 && Grouped(x, 2 * offset) && i < |x|
    requires g == i / (2 * offset) * (2 * offset) && h == i / offset * offset
    ensures g + 2 * offset <= |x| && h + offset <= |x|
    ensures Fold(Exchange(x, offset, op), h, h + offset, op) == Fold(x, g, g + 2 * offset, op)
  {
    PartnerInGroup(i, offset, |x|);
    ExchangePairs(x, offset, op, i, g, h);
    HalfHoldsWhole(x, Exchange(x, offset, op), g, h, offset, op);
  }

  /** The aligned group of lane `i` starts at lane `g`. */
  predicate GroupStart(i: nat, threads: nat, g: nat)
    requires threads > 0
  {
    g == i / threads * threads
  }

  /** Every lane ends with the operation over all lanes of its aligned group, which starts at `g`, each counted once. */
  lemma {:induction false} RunFoldsGroup<T(!new)>(x: seq<T>, threads: nat, op: (T, T) -> T, i: nat, g: nat)
    requires Associates(op) && Commutes(op)
    requires PowerOfTwo(threads) && threads >= 2 && Grouped(x, threads) && i < |x| && GroupStart(i, threads, g)
    ensures g <= i < g + threads <= |x| && Run(x, threads, op)[i] == Fold(x, g, g + threads, op)
    decreases threads
  {
    var offset := threads / 2;
    var h := i / offset * offset;
    PartnerInGroup(i, offset, |x|);
    ExchangeFolds(x, offset, op, i, g, h);
    if threads > 2 {
      HalfGrouped(x, threads);
      RunFoldsGroup(Exchange(x, offset, op), offset, op, i, h);
    }
  }

  // ----- Reducing values that are spread over the lanes

  /** Every value has an owner among the lanes. */
  predicate Owned(owner: seq<nat>, values: nat, lanes: nat) {
    |owner| == values && forall k :: 0 <= k < values ==> owner[k] < lanes
  }

  /** Every lane folds the values it owns, in order, onto its own start value: `thread_reduce_` on all lanes. */
  function Spread<T>(lanes: seq<T>, owner: seq<nat>, x: seq<T>, op: (T, T) -> T): (y: seq<T>)
    requires Owned(owner, |x|, |lanes|)
    ensures |y| == |lanes|
    decreases |x|
  {
    if x == [] then lanes
    else
      var k := |x| - 1;
      var y := Spread(lanes, owner[..k], x[..k], op);
      y[owner[k] := Apply(op, y[owner[k]], x[k])]
  }

  /** The operation over a start value and all values, from the left. */
  function FoldFrom<T>(acc: T, x: seq<T>, op: (T, T) -> T): T
    decreases |x|
  {
    if x == [] then acc else Apply(op, FoldFrom(acc, x[..|x| - 1], op), x[|x| - 1])
  }

  lemma {:induction false} FoldAgrees<T>(x: seq<T>, y: seq<T>, hi: nat, op: (T, T) -> T)
    requires 0 < hi <= |x| && hi <= |y| && forall k :: 0 <= k < hi ==> x[k] == y[k]
    ensures Fold(x, 0, hi, op) == Fold(y, 0, hi, op)
    decreases hi
  {
    if hi > 1 {
      FoldAgrees(x, y, hi - 1, op);
    }
  }

  /** A value folded onto one lane is folded onto the whole. */
  lemma {:induction false} FoldUpdate<T(!new)>(x: seq<T>, hi: nat, q: nat, v: T, op: (T, T) -> T)
    requires Associates(op) && Commutes(op) && q < hi <= |x|
    ensures Fold(x[q := Apply(op, x[q], v)], 0, hi, op) == Apply(op, Fold(x, 0, hi, op), v)
    decreases hi
  {
    var y := x[q := Apply(op, x[q], v)];
    if hi > 1 {
      var f, last := Fold(x, 0, hi - 1, op), x[hi - 1];
      if q == hi - 1 {
        FoldAgrees(x, y, hi - 1, op);
        assert AssociatesAt(op, f, last, v);
      } else {
        FoldUpdate(x, hi - 1, q, v, op);
        assert AssociatesAt(op, f, v, last) && CommutesAt(op, v, last) && AssociatesAt(op, f, last, v);
      }
    }
  }

  lemma {:induction false} SpreadFolds<T(!new)>(lanes: seq<T>, owner: seq<nat>, x: seq<T>, op: (T, T) -> T)
    requires Associates(op) && Commutes(op) && lanes != [] && Owned(owner, |x|, |lanes|)
    ensures Fold(Spread(lanes, owner, x, op), 0, |lanes|, op) == FoldFrom(Fold(lanes, 0, |lanes|, op), x, op)
    decreases |x|
  {
    if x != [] {
      var k := |x| - 1;
      SpreadFolds(lanes, owner[..k], x[..k], op);
      FoldUpdate(Spread(lanes, owner[..k], x[..k], op), |lanes|, owner[k], x[k], op);
    }
  }

  lemma WholeGroup<T>(x: seq<T>, threads: nat, i: nat)
    requires i < threads == |x|
    ensures Grouped(x, threads) && GroupStart(i, threads, 0)
  {
    QuotientUnique(threads, threads, 1);
    QuotientUnique(i, threads, 0);
  }

  /** An all-reduce over one whole group gives every lane the fold of all lanes. */
  lemma RunFoldsAll<T(!new)>(x: seq<T>, threads: nat, op: (T, T) -> T, i: nat)
    requires Associates(op) && Commutes(op) && PowerOfTwo(threads) && 2 <= threads == |x| && i < threads
    ensures Grouped(x, threads) && Run(x, threads, op)[i] == Fold(x, 0, threads, op)
  {
    WholeGroup(x, threads, i);
    RunFoldsGroup(x, threads, op, i, 0);
  }

  /** Thread reductions followed by an all-reduce: every lane ends with the operation over all values. */
  lemma ReduceFoldsAll<T(!new)>(lanes: seq<T>, owner: seq<nat>, x: seq<T>, op: (T, T) -> T, i: nat)
    requires Associates(op) && Commutes(op) && PowerOfTwo(|lanes|) && |lanes| >= 2 && Owned(owner, |x|, |lanes|)
    requires i < |lanes|
    ensures Grouped(Spread(lanes, owner, x, op), |lanes|)
    ensures Run(Spread(lanes, owner, x, op), |lanes|, op)[i] == FoldFrom(Fold(lanes, 0, |lanes|, op), x, op)
  {
    RunFoldsAll(Spread(lanes, owner, x, op), |lanes|, op, i);
    SpreadFolds(lanes, owner, x, op);
  }

  /** Slot `k` of the values past the first `lanes` belongs to lane `k % lanes`. */
  function Cyclic(lanes: nat, slots: nat): (owner: seq<nat>)
    requires 0 < lanes <= slots
    ensures Owned(owner, slots - lanes, lanes)
  {
    seq(slots - lanes, k requires 0 <= k => (lanes + k) % lanes)
  }

  lemma {:induction false} FoldFromIsFold<T>(x: seq<T>, mid: nat, hi: nat, op: (T, T) -> T)
    requires 0 < mid <= hi <= |x|
    ensures FoldFrom(Fold(x, 0, mid, op), x[mid..hi], op) == Fold(x, 0, hi, op)
    decreases hi
  {
    if mid < hi {
      FoldFromIsFold(x, mid, hi - 1, op);
      assert x[mid..hi][..hi - mid - 1] == x[mid..hi - 1];
    }
  }

  lemma SlotHeld<T>(slots: seq<T>, lanes: nat, k: nat, op: (T, T) -> T)
    requires 0 < lanes <= k < |slots|
    ensures var held := Spread(slots[..lanes], Cyclic(lanes, k), slots[lanes..k], op);
            Spread(slots[..lanes], Cyclic(lanes, k + 1), slots[lanes..k + 1], op)
            == held[k % lanes := Apply(op, held[k % lanes], slots[k])]
  {
    var x, owner := slots[lanes..k + 1], Cyclic(lanes, k + 1);
    assert x[..k - lanes] == slots[lanes..k];
    assert owner[..k - lanes] == Cyclic(lanes, k);
  }

  lemma SlotsFold<T(!new)>(slots: seq<T>, lanes: nat, op: (T, T) -> T, i: nat)
    requires Associates(op) && Commutes(op) && PowerOfTwo(lanes) && 2 <= lanes <= |slots| && i < lanes
    ensures var held := Spread(slots[..lanes], Cyclic(lanes, |slots|), slots[lanes..|slots|], op);
            Grouped(held, lanes) && Run(held, lanes, op)[i] == Fold(slots, 0, |slots|, op)
  {
    ReduceFoldsAll(slots[..lanes], Cyclic(lanes, |slots|), slots[lanes..|slots|], op, i);
    FoldAgrees(slots[..lanes], slots, lanes, op);
    FoldFromIsFold(slots, lanes, |slots|, op);
  }

  /** Each lane reduces the slots that it owns, slot `k` being owned by lane `k % lanes`, and the lanes all-reduce. */
  method ReduceSlots<T(!new)>(slots: seq<T>, lanes: nat, op: (T, T) -> T) returns (all: seq<T>)
    requires PowerOfTwo(lanes) && 2 <= lanes <= |slots|
    ensures |all| == lanes
    ensures Associates(op) && Commutes(op) ==> forall t :: 0 <= t < lanes ==> all[t] == Fold(slots, 0, |slots|, op)
  {
    var held := slots[..lanes];
    for k := lanes to |slots|
      invariant |held| == lanes && held == Spread(slots[..lanes], Cyclic(lanes, k), slots[lanes..k], op)
    {
      SlotHeld(slots, lanes, k, op);
      held := held[k % lanes := op(held[k % lanes], slots[k])];
    }
    WholeGroup(held, lanes, 0);
    all := Run(held, lanes, op);
    if Associates(op) && Commutes(op) {
      forall t | 0 <= t < lanes
        ensures all[t] == Fold(slots, 0, |slots|, op)
      {
        SlotsFold(slots, lanes, op, t);
      }
    }
  }
}
