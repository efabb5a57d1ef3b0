/**
 Which key blocks a query tile visits and which scores are masked on the way
 (pod_attn/pod_attn/fused_fwd_kernel.h, pod_attn/pod_attn/mask.h), against the documented
 bottom-right-aligned causal and sliding-window rule.
 */
module MaskSchedule {
  import opened IntMath

  /** Tile shapes for which an even causal launch masks enough blocks. */
  predicate ShapeFits(M: nat, N: nat)
    requires M > 0 && N > 0
  {
    M % N == 0 || M % N <= Gcd(M, N) + 1
  }

  /**
   A tile shape `M x N`, the actual lengths of one batch entry, and the compile-time flags. The
   windows are the kernel's, after the host has replaced the open ends.
   */
  datatype Config = Config(M: nat, N: nat, sq: nat, sk: nat, wl: int, wr: int, causal: bool, local: bool, even: bool) {

    /** What the dispatch code guarantees about the flags. */
    predicate Valid() {
      && M > 0 && N > 0
      && !(causal && local)
      && (causal ==> wr == 0)
      && (local ==> wl >= 0 && wr >= 0 && !even)
      && (even ==> sk % N == 0 && sq % M == 0)
    }

    /** The documented rule: may query `i` attend to key `j`? */
    predicate Visible(i: int, j: int) {
      && 0 <= j < sk
      && (causal ==> j <= i + sk - sq)
      && (local ==> i + sk - sq - wl <= j <= i + sk - sq + wr)
    }

    // ----- The key-block range of a tile

    function WindowMin(m: int): int
      requires N > 0
    {
      TruncDiv(m * M + sk - sq - wl, N)
    }

    function WindowMax(m: int): int
      requires N > 0
    {
      CeilDiv((m + 1) * M + sk - sq + wr, N)
    }

    function BlockMin(m: int): int
      requires N > 0
    {
      if !local then 0 else Max(0, WindowMin(m))
    }

    function BlockMax(m: int): int
      requires N > 0
    {
      var n := CeilDiv(sk, N);
      if causal || local then Min(n, WindowMax(m)) else n
    }

    /** The early exit of the unsplit kernel. */
    predicate ExitsEarly(m: int)
      requires N > 0
    {
      (causal || local || !even) && BlockMax(m) <= BlockMin(m)
    }

    // ----- The range of one split

    function BlocksPerSplit(seqlenK: nat, splits: nat): nat
      requires N > 0 && splits > 0
    {
      CeilNat(CeilNat(seqlenK, N), splits)
    }

    function SplitMin(m: int, seqlenK: nat, splits: nat, i: nat): int
      requires N > 0 && splits > 0
    {
      var lo := i * BlocksPerSplit(seqlenK, splits);
      if !local then lo else Max(lo, WindowMin(m))
    }

    function SplitMax(m: int, seqlenK: nat, splits: nat, i: nat): int
      requires N > 0 && splits > 0
    {
      var n := Min(CeilDiv(sk, N), (i + 1) * BlocksPerSplit(seqlenK, splits));
      if causal || local then Min(n, WindowMax(m)) else n
    }

    // ----- Masking

    function MaskingSteps(): int
      requires N > 0
    {
      if !causal && !local then 1
      else if even && causal then CeilDiv(M, N)
      else CeilDiv(M, N) + 1
    }

    /** Does `apply_mask` overwrite the score of row `i` and column `j`? */
    predicate Masked(causalMask: bool, evenMN: bool, i: int, j: int) {
      var needMasking := causalMask || local || !evenMN;
      var colIdxOnly := !local && !causalMask;
      var limitLeft := Max(0, i + sk - sq - wl);
      var limitRight := Min(sk, i + 1 + sk - sq + wr);
      needMasking &&
      if colIdxOnly then !evenMN && j >= sk
      else
        || (causalMask && j >= limitRight)
        || (local && (j >= limitRight || j < limitLeft))
    }

    /** The mask a block gets in the `step`-th iteration: the masking loop first, then the tail loop. */
    predicate MaskedAt(step: int, i: int, j: int)
      requires N > 0
    {
      if step < MaskingSteps() then Masked(causal, even, i, j) else Masked(false, true, i, j)
    }

    /** Does the score of row `i` and key `j` survive a walk whose range ends at block `hi`? */
    predicate Scheduled(hi: int, i: int, j: int)
      requires N > 0
    {
      0 <= j < sk && !MaskedAt(hi - 1 - j / N, i, j)
    }

    predicate RowOfTile(m: int, i: int) {
      m * M <= i < (m + 1) * M
    }

    /** The walks of an even causal launch mask enough blocks. */
    predicate Fits() {
      even && causal && M > 0 && N > 0 ==> ShapeFits(M, N)
    }
  }

  /** No key of a block outside the range is visible from the tile. */
  lemma OutsideRangeInvisible(c: Config, m: int, n: int, i: int, j: int)
    requires c.Valid() && c.RowOfTile(m, i) && n * c.N <= j < (n + 1) * c.N
    requires !(c.BlockMin(m) <= n < c.BlockMax(m))
    ensures !c.Visible(i, j)
  {
    if c.Visible(i, j) {
      if n < 0 {
        MulMono(n + 1, 0, c.N);
      } else if n < c.BlockMin(m) {
        TruncDivBelow(m * c.M + c.sk - c.sq - c.wl, c.N, n);
      } else {
        CeilDivAbove(c.sk, c.N, n, j);
        CeilDivAbove((m + 1) * c.M + c.sk - c.sq + c.wr, c.N, n, j);
      }
    }
  }

  // ----- The masking schedule

  /**
   The schedule is right for a block, a row and a column: the score survives the masking it gets
   in a walk that starts below block `hi` exactly when the rule lets the row see the key.
   */
  ghost predicate ScheduledRight(c: Config, hi: int, n: int, i: int, j: int)
    requires c.N > 0
  {
    c.MaskedAt(hi - 1 - n, i, j) <==> !c.Visible(i, j)
  }

  lemma EvenBlockEnd(sk: nat, N: nat, n: int)
    requires N > 0 && sk % N == 0 && 0 <= n < CeilDiv(sk, N)
    ensures (n + 1) * N <= sk
  {
    CeilDivBounds(sk, N);
    QuotientUnique(sk + N - 1, N, sk / N);
    MulMono(n + 1, sk / N, N);
  }

  /** One more masked block than the tile is wide leaves the limit `x - M` beyond the tail. */
  lemma PaddedTail(x: int, M: nat, N: nat, n: int)
    requires M > 0 && N > 0 && n >= 0 && n + CeilDiv(M, N) + 1 < CeilDiv(x, N)
    ensures (n + 1) * N <= x - M
  {
    var steps, top := CeilDiv(M, N), CeilDiv(x, N);
    CeilDivBounds(x, N);
    CeilDivBounds(M, N);
    MulMono(n + 1, top - 1 - steps, N);
    DistributeSub(top - 1, steps, N);
  }

  lemma CeilDivPadding(M: nat, N: nat)
    requires M > 0 && N > 0
    ensures CeilDiv(M, N) * N == if M % N == 0 then M else M + N - M % N
    ensures M % N == 0 ==> Gcd(M, N) == N
  {
    var q := M / N;
    assert M == q * N + M % N;
    assert (q + 1) * N == q * N + N && (q + 2) * N == q * N + N + N;
    if M % N == 0 {
      QuotientUnique(M + N - 1, N, q);
      assert Gcd(M, N) == Gcd(N, 0);
    } else {
      QuotientUnique(M + N - 1, N, q + 1);
    }
  }

  /** When the limit is aligned and the shape fits, `ceil_div(M, N)` masked blocks are enough. */
  lemma AlignedTail(x: int, M: nat, N: nat, n: int)
    requires M > 0 && N > 0 && n >= 0 && n + CeilDiv(M, N) < CeilDiv(x, N)
    requires ShapeFits(M, N) && Divides(Gcd(M, N), x) && Divides(Gcd(M, N), N)
    ensures (n + 1) * N <= x - M + 1
  {
    var steps, top := CeilDiv(M, N), CeilDiv(x, N);
    CeilDivBounds(x, N);
    CeilDivBounds(M, N);
    CeilDivAligned(x, N, Gcd(M, N));
    CeilDivPadding(M, N);
    MulMono(n + 1, top - steps, N);
    DistributeSub(top, steps, N);
  }

  lemma EvenLimitAligned(c: Config, m: nat)
    requires c.Valid() && c.even
    ensures Divides(Gcd(c.M, c.N), (m + 1) * c.M + c.sk - c.sq)
  {
    var g := Gcd(c.M, c.N);
    GcdDivides(c.M, c.N);
    DividesTimes(g, c.M, m + 1);
    DividesTimes(g, c.N, c.sk / c.N);
    DividesTimes(g, c.M, 0 - c.sq / c.M);
    DivMod(c.sk, c.N);
    DivMod(c.sq, c.M);
    DistributeSub(0, c.sq / c.M, c.M);
    DividesSum(g, (m + 1) * c.M, c.sk);
    DividesSum(g, (m + 1) * c.M + c.sk, 0 - c.sq);
  }

  /** A tail block of a causal walk ends at or before the limit of the tile's first row. */
  lemma CausalTailVisible(c: Config, m: nat, n: int)
    requires c.Valid() && c.causal && (c.even ==> ShapeFits(c.M, c.N))
    requires 0 <= n && n + c.MaskingSteps() < c.BlockMax(m)
    ensures (n + 1) * c.N <= m * c.M + 1 + c.sk - c.sq
  {
    var x := (m + 1) * c.M + c.sk - c.sq;
    assert x == m * c.M + c.M + c.sk - c.sq;
    if c.even {
      EvenLimitAligned(c, m);
      GcdDivides(c.M, c.N);
      AlignedTail(x, c.M, c.N, n);
    } else {
      PaddedTail(x, c.M, c.N, n);
    }
  }

  /**
   In every walk over part of the tile's range, the blocks of the tail loop, which a causal
   launch does not mask, hold only visible keys, and the masked blocks are masked exactly.
   */
  lemma ScheduleMatchesRule(c: Config, m: nat, hi: int, n: int, i: int, j: int)
    requires c.Valid() && c.Fits()
    requires 0 <= n < hi <= c.BlockMax(m)
    requires c.RowOfTile(m, i) && n * c.N <= j < (n + 1) * c.N
    ensures ScheduledRight(c, hi, n, i, j)
  {
    MulMono(0, n, c.N);
    if hi - 1 - n >= c.MaskingSteps() {
      if c.causal {
        CausalTailVisible(c, m, n);
        CeilDivBounds(c.M, c.N);
        CeilDivBlockEnd(c.sk, c.N, n);
      } else if !c.local {
        CeilDivBlockEnd(c.sk, c.N, n);
      }
    } else if !c.causal && !c.local && c.even {
      EvenBlockEnd(c.sk, c.N, n);
    }
  }

  /** A walk masks every column past the last key, whatever the tile shape. */
  lemma PastEndMasked(c: Config, hi: int, n: int, i: int, j: int)
    requires c.Valid() && 0 <= n < hi <= CeilDiv(c.sk, c.N) && n * c.N <= j < (n + 1) * c.N && j >= c.sk
    ensures c.MaskedAt(hi - 1 - n, i, j)
  {
    CeilDivBounds(c.M, c.N);
    if n < hi - 1 {
      CeilDivBlockEnd(c.sk, c.N, n);
    } else if c.even {
      EvenBlockEnd(c.sk, c.N, n);
    }
  }

  /** The tail loop of a walk that is not local masks nothing. */
  lemma TailUnmasked(c: Config, hi: int, n: int, i: int, j: int)
    requires c.Valid() && !c.local && c.MaskingSteps() <= hi - 1 - n
    requires 0 <= n < hi <= CeilDiv(c.sk, c.N) && n * c.N <= j < (n + 1) * c.N
    ensures c.Scheduled(hi, i, j)
  {
    CeilDivBounds(c.M, c.N);
    CeilDivBlockEnd(c.sk, c.N, n);
    MulMono(0, n, c.N);
    QuotientUnique(j, c.N, n);
  }

  /** For shapes that fit, the scheduled mask is the documented one on every key of the range. */
  lemma ScheduledIsVisible(c: Config, m: nat, hi: int, i: int, j: int)
    requires c.Valid() && c.Fits() && c.RowOfTile(m, i)
    requires 0 <= j && j / c.N < hi <= c.BlockMax(m)
    ensures c.Scheduled(hi, i, j) <==> c.Visible(i, j)
  {
    QuotientBounds(j, c.N);
    ScheduleMatchesRule(c, m, hi, j / c.N, i, j);
  }

  // ----- Exactly which tile shapes work for even causal launches

  ghost predicate LaunchRight(M: nat, N: nat, sq: nat, sk: nat, m: nat)
    requires M > 0 && N > 0
  {
    var c := Config(M, N, sq, sk, sk, 0, true, false, true);
    c.Valid() && m * M < sq ==>
      forall n, i, j :: 0 <= n < c.BlockMax(m) && c.RowOfTile(m, i) && n * N <= j < (n + 1) * N ==>
        ScheduledRight(c, c.BlockMax(m), n, i, j)
  }

  lemma BadRange(M: nat, N: nat, sq: nat, sk: nat, a: nat, b: nat, steps: nat, g: nat)
    requires M > 0 && N > 0 && sq == b * M && sk == a * N && a > steps
    requires M + sk - sq == steps * N + g && 0 < g < N
    ensures sq % M == 0 && sk % N == 0
    ensures Config(M, N, sq, sk, sk, 0, true, false, true).BlockMax(0) == steps + 1
  {
    DistributeAdd(b, 1, M);
    QuotientUnique(sq, M, b);
    DistributeAdd(a, 1, N);
    QuotientUnique(sk, N, a);
    DistributeAdd(steps, 1, N);
    DistributeAdd(steps + 1, 1, N);
    QuotientUnique(M + sk - sq + N - 1, N, steps + 1);
    QuotientUnique(sk + N - 1, N, a);
    assert (0 + 1) * M == M;
  }

  /** For a shape that does not fit, a launch whose first tail block shows row 0 a key it must not see. */
  lemma BadLaunch(M: nat, N: nat) returns (sq: nat, sk: nat)
    requires M > 0 && N > 0 && !ShapeFits(M, N)
    ensures !LaunchRight(M, N, sq, sk, 0)
  {
    var g := Gcd(M, N);
    var u, v := Bezout(M, N);
    CeilDivPadding(M, N);
    CeilDivBounds(M, N);
    var steps := CeilDiv(M, N);
    sq, sk := (v + 1) * M, (u + steps) * N;
    DistributeAdd(v, 1, M);
    DistributeAdd(u, steps, N);
    BadRange(M, N, sq, sk, u + steps, v + 1, steps, g);
    var c := Config(M, N, sq, sk, sk, 0, true, false, true);
    assert c.MaskedAt(steps + 1 - 1 - 0, 0, N - 1) == c.Masked(false, true, 0, N - 1);
    assert !c.Visible(0, N - 1);
    assert !ScheduledRight(c, c.BlockMax(0), 0, 0, N - 1);
  }

  /**
   Every even causal launch of a tile shape masks correctly if and only if the shape fits: the
   remainder of `kBlockM` by `kBlockN` is zero or at most one more than their common divisor.
   */
  lemma EvenCausalShapes(M: nat, N: nat)
    requires M > 0 && N > 0
    ensures (forall sq: nat, sk: nat, m: nat :: LaunchRight(M, N, sq, sk, m)) <==> ShapeFits(M, N)
  {
    if ShapeFits(M, N) {
      forall sq: nat, sk: nat, m: nat
        ensures LaunchRight(M, N, sq, sk, m)
      {
        var c := Config(M, N, sq, sk, sk, 0, true, false, true);
        if c.Valid() {
          forall n, i, j | 0 <= n < c.BlockMax(m) && c.RowOfTile(m, i) && n * N <= j < (n + 1) * N
            ensures ScheduledRight(c, c.BlockMax(m), n, i, j)
          {
            ScheduleMatchesRule(c, m, c.BlockMax(m), n, i, j);
          }
        }
      }
    } else {
      var sq, sk := BadLaunch(M, N);
    }
  }

  /** Every tile shape the launcher configures fits. */
  lemma ConfiguredShapesFit()
    ensures ShapeFits(128, 64) && ShapeFits(64, 128) && ShapeFits(64, 32) && ShapeFits(32, 64) && ShapeFits(16, 32)
  {
  }

  // ----- Split ranges

  /** Does split `i` own block `n`? */
  predicate Owns(c: Config, m: int, seqlenK: nat, splits: nat, i: nat, n: int)
    requires c.N > 0 && splits > 0
  {
    c.SplitMin(m, seqlenK, splits, i) <= n < c.SplitMax(m, seqlenK, splits, i)
  }

  /** The block at which split `i` begins, clamped to the tile's range. */
  function Cut(c: Config, m: int, seqlenK: nat, splits: nat, i: nat): int
    requires c.N > 0 && splits > 0
  {
    var lo, hi := c.BlockMin(m), c.BlockMax(m);
    Min(Max(i * c.BlocksPerSplit(seqlenK, splits), lo), Max(lo, hi))
  }

  /** A non-empty split range runs from its cut to the next; an empty one has no blocks between its cuts. */
  lemma SplitBetweenCuts(c: Config, m: int, seqlenK: nat, splits: nat, i: nat)
    requires c.Valid() && splits > 0
    ensures var lo, hi := c.SplitMin(m, seqlenK, splits, i), c.SplitMax(m, seqlenK, splits, i);
            var cut, next := Cut(c, m, seqlenK, splits, i), Cut(c, m, seqlenK, splits, i + 1);
            && cut <= next
            && (if lo < hi then cut == lo && next == hi else cut == next)
  {
    var b := c.BlocksPerSplit(seqlenK, splits);
    MulMono(0, i, b);
    DistributeAdd(i, 1, b);
  }

  /** The splits reach the end of the tile's range. */
  predicate SplitsReach(c: Config, m: int, seqlenK: nat, splits: nat)
    requires c.N > 0 && splits > 0
  {
    c.BlockMax(m) <= splits * c.BlocksPerSplit(seqlenK, splits) || c.BlockMax(m) <= c.BlockMin(m)
  }

  ghost predicate OwnedBySome(c: Config, m: int, seqlenK: nat, splits: nat, n: int)
    requires c.N > 0 && splits > 0
  {
    exists i: nat :: i < splits && Owns(c, m, seqlenK, splits, i, n)
  }

  lemma OwnsExactly(c: Config, m: int, seqlenK: nat, splits: nat, i: nat, n: int)
    requires c.Valid() && splits > 0
    ensures var b := c.BlocksPerSplit(seqlenK, splits);
            && (Owns(c, m, seqlenK, splits, i, n) <==> c.BlockMin(m) <= n < c.BlockMax(m) && i * b <= n < (i + 1) * b)
            && (Owns(c, m, seqlenK, splits, i, n) ==> b > 0 && i == n / b)
  {
    var b := c.BlocksPerSplit(seqlenK, splits);
    MulMono(0, i, b);
    if Owns(c, m, seqlenK, splits, i, n) {
      DistributeAdd(i, 1, b);
      QuotientUnique(n, b, i);
    }
  }

  /** The splits own the blocks of the tile's range below their common end. */
  lemma OwnedExactly(c: Config, m: int, seqlenK: nat, splits: nat, n: int)
    requires c.Valid() && splits > 0
    ensures OwnedBySome(c, m, seqlenK, splits, n)
            <==> c.BlockMin(m) <= n < c.BlockMax(m) && n < splits * c.BlocksPerSplit(seqlenK, splits)
  {
    var b := c.BlocksPerSplit(seqlenK, splits);
    if OwnedBySome(c, m, seqlenK, splits, n) {
      var i: nat :| i < splits && Owns(c, m, seqlenK, splits, i, n);
      OwnsExactly(c, m, seqlenK, splits, i, n);
      MulMono(i + 1, splits, b);
    }
    if c.BlockMin(m) <= n < c.BlockMax(m) && n < splits * b {
      QuotientBounds(n, b);
      if n / b >= splits {
        MulMono(splits, n / b, b);
      }
      OwnsExactly(c, m, seqlenK, splits, n / b, n);
      assert Owns(c, m, seqlenK, splits, n / b, n);
    }
  }

  lemma OwnedOnce(c: Config, m: int, seqlenK: nat, splits: nat, i: nat, i': nat, n: int)
    requires c.Valid() && splits > 0 && Owns(c, m, seqlenK, splits, i, n) && Owns(c, m, seqlenK, splits, i', n)
    ensures i == i'
  {
    OwnsExactly(c, m, seqlenK, splits, i, n);
    OwnsExactly(c, m, seqlenK, splits, i', n);
  }

  /**
   No block belongs to two splits, and the splits together own exactly the blocks of the unsplit
   range if and only if they reach its end.
   */
  lemma SplitRangesPartition(c: Config, m: int, seqlenK: nat, splits: nat)
    requires c.Valid() && splits > 0
    ensures forall i: nat, i': nat, n ::
              Owns(c, m, seqlenK, splits, i, n) && Owns(c, m, seqlenK, splits, i', n) ==> i == i'
    ensures (forall n :: OwnedBySome(c, m, seqlenK, splits, n) <==> c.BlockMin(m) <= n < c.BlockMax(m))
            <==> SplitsReach(c, m, seqlenK, splits)
  {
    var end := splits * c.BlocksPerSplit(seqlenK, splits);
    var lo, hi := c.BlockMin(m), c.BlockMax(m);
    forall i: nat, i': nat, n | Owns(c, m, seqlenK, splits, i, n) && Owns(c, m, seqlenK, splits, i', n)
      ensures i == i'
    {
      OwnedOnce(c, m, seqlenK, splits, i, i', n);
    }
    forall n
      ensures OwnedBySome(c, m, seqlenK, splits, n) <==> lo <= n < hi && n < end
    {
      OwnedExactly(c, m, seqlenK, splits, n);
    }
    if !SplitsReach(c, m, seqlenK, splits) {
      assert !OwnedBySome(c, m, seqlenK, splits, Max(lo, end));
    }
  }

  /** One split of a launch sized for 128 keys, over 129 keys: it stops short of the last. */
  lemma SplitsStopShort()
    ensures var c := Config(64, 128, 1, 129, 0, 0, false, false, false);
            c.Valid() && !SplitsReach(c, 0, 128, 1) && c.BlockMax(0) == 2 && !OwnedBySome(c, 0, 128, 1, 1)
  {
    var c := Config(64, 128, 1, 129, 0, 0, false, false, false);
    assert c.BlocksPerSplit(128, 1) == 1;
    OwnedExactly(c, 0, 128, 1, 1);
  }

  /** The splits reach the last key whenever the batch entry is no longer than the launch was sized for. */
  lemma SplitsReachWithinSeqlenK(c: Config, m: int, seqlenK: nat, splits: nat)
    requires c.Valid() && splits > 0 && c.sk <= seqlenK
    ensures CeilDiv(c.sk, c.N) <= splits * c.BlocksPerSplit(seqlenK, splits) && SplitsReach(c, m, seqlenK, splits)
  {
    var blocks := CeilNat(seqlenK, c.N);
    QuotientBounds(seqlenK + c.N - 1, c.N);
    QuotientBounds(blocks + splits - 1, splits);
    var b := c.BlocksPerSplit(seqlenK, splits);
    DistributeAdd(b, 1, splits);
    CeilDivBounds(c.sk, c.N);
    if CeilDiv(c.sk, c.N) > blocks {
      MulMono(blocks, CeilDiv(c.sk, c.N) - 1, c.N);
      DistributeAdd(blocks, 1, c.N);
    }
    assert b * splits == splits * b;
  }

  /** The unsplit kernel walks an empty range only when it is even, unmasked and there are no keys. */
  lemma UnsplitWalkHasBlocks(c: Config, m: int)
    requires c.Valid()
    ensures (c.ExitsEarly(m) || c.BlockMin(m) < c.BlockMax(m)) <==> (c.causal || c.local || !c.even || c.sk > 0)
  {
    CeilDivBounds(c.sk, c.N);
  }

  /** An even unmasked launch without keys neither exits nor has a block. */
  lemma EvenLaunchWithoutKeys()
    ensures var c := Config(128, 64, 128, 0, 0, 0, false, false, true);
            c.Valid() && !c.ExitsEarly(0) && c.BlockMin(0) == c.BlockMax(0) == 0
  {
  }
}
