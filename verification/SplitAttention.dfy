/**
 The two tile kernels (pod_attn/pod_attn/fused_fwd_kernel.h), `compute_attn_1rowblock` and
 `compute_attn_1rowblock_splitkv`, the latter followed by the combination of its splits, against
 attention over all keys.
 */
module SplitAttention {
  import opened Floats
  import opened IntMath
  import opened AttentionSpec
  import opened Allreduce
  import opened OnlineSoftmax
  import opened MaskSchedule
  import opened Kernel
  import opened Combine

  // ----- Attention does not depend on keys the row cannot see

  lemma NumWiden(c: Scaling, row: Row, x: seq<real>, m: real, a: int, lo: int, hi: int, b: int)
    requires a <= lo <= hi <= b && row.SeesNone(a, lo) && row.SeesNone(hi, b)
    ensures Num(c, row, x, m, a, b) == Num(c, row, x, m, lo, hi)
  {
    NumSplits(c, row, x, m, a, lo, b);
    NumSplits(c, row, x, m, lo, hi, b);
    NumInvisible(c, row, x, m, a, lo);
    NumInvisible(c, row, x, m, hi, b);
  }

  lemma AttentionWiden(c: Scaling, row: Row, v: seq<seq<real>>, cols: nat, a: int, lo: int, hi: int, b: int, none: F,
                       out: seq<F>, lse: F)
    requires Matrix(v, |row.s|, cols)
    requires a <= lo <= hi <= b && row.SeesNone(a, lo) && row.SeesNone(hi, b)
    ensures IsAttention(c, row, v, cols, a, b, none, out, lse) <==> IsAttention(c, row, v, cols, lo, hi, none, out, lse)
  {
    assert row.SeesNone(a, b) <==> row.SeesNone(lo, hi);
    NumWiden(c, row, Ones(|row.s|), 0.0, a, lo, hi, b);
    forall d | 0 <= d < cols
      ensures Num(c, row, Column(v, d), 0.0, a, b) == Num(c, row, Column(v, d), 0.0, lo, hi)
    {
      NumWiden(c, row, Column(v, d), 0.0, a, lo, hi, b);
    }
  }

  /** Two rows see the same keys of `[lo, hi)`, with the same scores. */
  ghost predicate SameBetween(a: Row, b: Row, lo: int, hi: int) {
    |a.s| == |b.s| && forall j :: lo <= j < hi ==> (a.Sees(j) <==> b.Sees(j)) && (a.Sees(j) ==> a.s[j] == b.s[j])
  }

  ghost predicate SameValues(v: seq<seq<real>>, w: seq<seq<real>>, lo: int, hi: int) {
    |v| == |w| && forall j :: lo <= j < hi && 0 <= j < |v| ==> v[j] == w[j]
  }

  lemma {:induction false} NumAgrees(c: Scaling, a: Row, b: Row, x: seq<real>, y: seq<real>, m: real, lo: int, hi: int)
    requires SameBetween(a, b, lo, hi) && forall j :: lo <= j < hi ==> At(x, j) == At(y, j)
    ensures Num(c, a, x, m, lo, hi) == Num(c, b, y, m, lo, hi)
    decreases hi - lo
  {
    if lo < hi {
      NumAgrees(c, a, b, x, y, m, lo + 1, hi);
      assert Weight(c, a, m, lo) == Weight(c, b, m, lo);
    }
  }

  lemma AttentionAgrees(c: Scaling, a: Row, b: Row, v: seq<seq<real>>, w: seq<seq<real>>, cols: nat, lo: int, hi: int,
                        none: F, out: seq<F>, lse: F)
    requires Matrix(v, |a.s|, cols) && Matrix(w, |a.s|, cols) && SameBetween(a, b, lo, hi) && SameValues(v, w, lo, hi)
    ensures IsAttention(c, a, v, cols, lo, hi, none, out, lse) <==> IsAttention(c, b, w, cols, lo, hi, none, out, lse)
  {
    assert a.SeesNone(lo, hi) <==> b.SeesNone(lo, hi);
    NumAgrees(c, a, b, Ones(|a.s|), Ones(|a.s|), 0.0, lo, hi);
    forall d | 0 <= d < cols
      ensures Num(c, a, Column(v, d), 0.0, lo, hi) == Num(c, b, Column(w, d), 0.0, lo, hi)
    {
      NumAgrees(c, a, b, Column(v, d), Column(w, d), 0.0, lo, hi);
    }
  }

  /** What is left of a row depends only on the keys that were walked. */
  lemma RowAgrees(sc: Scaling, a: Row, b: Row, v: seq<seq<real>>, w: seq<seq<real>>, cols: nat, keys: Span, none: F,
                  spoilt: F, out: RowResult)
    requires Matrix(v, |a.s|, cols) && Matrix(w, |a.s|, cols)
    requires SameBetween(a, b, keys.lo, keys.hi) && SameValues(v, w, keys.lo, keys.hi)
    ensures RowAttends(sc, a, v, cols, keys, keys, none, spoilt, out)
            <==> RowAttends(sc, b, w, cols, keys, keys, none, spoilt, out)
  {
    AttentionAgrees(sc, a, b, v, w, cols, keys.lo, keys.hi, none, out.o, out.lse);
    assert Safe(sc, a, keys.lo, keys.hi) <==> Safe(sc, b, keys.lo, keys.hi);
  }

  /** A row of tile `m` sees no key outside the blocks of the tile's range. */
  lemma RowSeesOnlyRange(c: Config, x: Inputs, m: nat, i: nat, lo: int, hi: int)
    requires c.Valid() && x.Valid(c) && i < c.sq && c.RowOfTile(m, i)
    requires lo <= c.BlockMin(m) && c.BlockMax(m) <= hi && 0 <= lo <= hi
    ensures var row := RowOf(c, x, i);
            && 0 <= lo * c.N <= hi * c.N
            && row.SeesNone(0, lo * c.N) && row.SeesNone(hi * c.N, IntMath.Max(c.sk, hi * c.N))
  {
    var row := RowOf(c, x, i);
    MulMono(0, lo, c.N);
    MulMono(lo, hi, c.N);
    forall j | 0 <= j < lo * c.N || hi * c.N <= j
      ensures !row.Sees(j)
    {
      var n := j / c.N;
      QuotientBounds(j, c.N);
      if c.BlockMin(m) <= n < c.BlockMax(m) {
        if j < lo * c.N {
          MulMono(lo, n, c.N);
        } else {
          MulMono(n + 1, hi, c.N);
        }
      }
      OutsideRangeInvisible(c, m, n, i, j);
    }
  }

  /** Attention over the keys of a range of blocks that holds the tile's range is attention over all keys. */
  lemma AttentionOverAllKeys(sc: Scaling, c: Config, x: Inputs, m: nat, i: nat, lo: int, hi: int, none: F,
                             out: seq<F>, lse: F)
    requires c.Valid() && x.Valid(c) && i < c.sq && c.RowOfTile(m, i)
    requires lo <= c.BlockMin(m) && c.BlockMax(m) <= hi && 0 <= lo <= hi
    requires IsAttention(sc, RowOf(c, x, i), x.v, x.cols, lo * c.N, hi * c.N, none, out, lse)
    ensures IsAttention(sc, RowOf(c, x, i), x.v, x.cols, 0, c.sk, none, out, lse)
  {
    var row := RowOf(c, x, i);
    RowSeesOnlyRange(c, x, m, i, lo, hi);
    var b := IntMath.Max(c.sk, hi * c.N);
    AttentionWiden(sc, row, x.v, x.cols, 0, lo * c.N, hi * c.N, b, none, out, lse);
    AttentionWiden(sc, row, x.v, x.cols, 0, 0, c.sk, b, none, out, lse);
  }

  /** The documented mask and the one a walk applies agree on the walk's keys if the tile shape fits. */
  lemma ScheduledRowAgrees(c: Config, x: Inputs, m: nat, i: nat, lo: nat, hi: int)
    requires c.Valid() && x.Valid(c) && c.Fits() && i < c.sq && c.RowOfTile(m, i) && hi <= c.BlockMax(m)
    ensures SameBetween(ScheduledRow(c, x, hi, i), RowOf(c, x, i), lo * c.N, hi * c.N)
  {
    MulMono(0, lo, c.N);
    forall j | lo * c.N <= j < hi * c.N
      ensures ScheduledRow(c, x, hi, i).Sees(j) <==> RowOf(c, x, i).Sees(j)
    {
      BlockOfKey(j, c.N, lo, hi);
      ScheduledIsVisible(c, m, hi, i, j);
    }
  }

  /** The keys of the blocks of query tile `m`. */
  function TileKeys(c: Config, m: int): Span
    requires c.N > 0
  {
    Span(c.BlockMin(m) * c.N, c.BlockMax(m) * c.N)
  }

  // ----- The unsplit kernel

  /** The kernel exits or has a block to walk: it is masked, or not even, or there are keys. */
  predicate Walkable(c: Config) {
    c.causal || c.local || !c.even || c.sk > 0
  }

  lemma UnsplitRowAttends(sc: Scaling, c: Config, x: Inputs, m: nat, i: nat, lo: nat, hi: int, out: RowResult)
    requires c.Valid() && x.Valid(c) && c.Fits() && i < c.sq && c.RowOfTile(m, i)
    requires lo == c.BlockMin(m) && hi == c.BlockMax(m)
    requires RowAttends(sc, ScheduledRow(c, x, hi, i), x.v, x.cols, TileKeys(c, m), TileKeys(c, m), PosInf, PosInf, out)
    ensures RowAttends(sc, RowOf(c, x, i), x.v, x.cols, TileKeys(c, m), Span(0, c.sk), PosInf, PosInf, out)
  {
    ScheduledRowAgrees(c, x, m, i, lo, hi);
    RowAgrees(sc, ScheduledRow(c, x, hi, i), RowOf(c, x, i), x.v, x.v, x.cols, TileKeys(c, m), PosInf, PosInf, out);
    if hi <= lo {
      MulMono(hi, lo, c.N);
      AttentionOverAllKeys(sc, c, x, m, i, lo, lo, PosInf, out.o, out.lse);
    } else if Safe(sc, RowOf(c, x, i), lo * c.N, hi * c.N) {
      AttentionOverAllKeys(sc, c, x, m, i, lo, hi, PosInf, out.o, out.lse);
    }
  }

  /** Every existing row of tile `m` is left with its documented attention over all keys, given what was walked. */
  ghost predicate TileDocumented(sc: Scaling, c: Config, x: Inputs, m: nat, row: nat, o: seq<seq<F>>, lse: seq<F>)
    requires x.Valid(c) && c.N > 0
  {
    && |o| == |lse| == c.M
    && forall r :: 0 <= r < c.M && row + r < c.sq ==>
      RowAttends(sc, RowOf(c, x, row + r), x.v, x.cols, TileKeys(c, m), Span(0, c.sk), PosInf, PosInf,
                 RowResult(o[r], lse[r]))
  }

  lemma UnsplitTileAttends(sc: Scaling, c: Config, x: Inputs, m: nat, row: nat, o: seq<seq<F>>, lse: seq<F>)
    requires c.Valid() && x.Valid(c) && c.Fits() && row == m * c.M
    requires TileAttends(sc, c, x, row, c.BlockMax(m), TileKeys(c, m), PosInf, o, lse)
    ensures TileDocumented(sc, c, x, m, row, o, lse)
  {
    forall r | 0 <= r < c.M && row + r < c.sq
      ensures RowAttends(sc, RowOf(c, x, row + r), x.v, x.cols, TileKeys(c, m), Span(0, c.sk), PosInf, PosInf,
                         RowResult(o[r], lse[r]))
    {
      DistributeAdd(m, 1, c.M);
      UnsplitRowAttends(sc, c, x, m, row + r, c.BlockMin(m), c.BlockMax(m), RowResult(o[r], lse[r]));
    }
  }

  /** The body of the unsplit kernel, for the blocks `[lo, hi)`; nothing is known of a walk without blocks. */
  method ExitOrWalk(sc: Scaling, c: Config, x: Inputs, row: nat, exits: bool, lo: nat, hi: int, keyLo: nat, keyHi: int)
    returns (o: seq<seq<F>>, lse: seq<F>)
    requires sc.t.Lawful() && c.Valid() && x.Valid(c) && keyLo == lo * c.N && keyHi == hi * c.N
    requires hi <= CeilDiv(c.sk, c.N) && (hi <= lo ==> keyHi <= keyLo) && (exits ==> hi <= lo)
    ensures |o| == |lse| == c.M
    ensures exits || lo < hi ==> TileAttends(sc, c, x, row, hi, Span(keyLo, keyHi), PosInf, o, lse)
  {
    if exits {
      o, lse := seq(c.M, _ => seq(x.cols, _ => Fin(0.0))), seq(c.M, _ => PosInf);
    } else if lo < hi {
      MulMono(0, hi, c.N);
      o, lse := WalkTile(sc, Walk(c, x, row, lo, hi, keyLo, keyHi, c.causal || c.local), false);
    } else {
      assert |seq<seq<F>>(c.M, _ => [])| == |seq<F>(c.M, _ => NaN)| == c.M;
      o, lse :| |o| == c.M && |lse| == c.M;
    }
  }

  /**
   `compute_attn_1rowblock`: every existing row of the tile gets its attention over the keys of the
   tile's blocks, under the scheduled mask, and output zero with an infinite log-sum-exp if it sees
   none. Without a block to walk nothing is known of the result. If the tile shape fits, this is the
   documented attention over all keys.
   */
  method UnsplitTile(sc: Scaling, c: Config, x: Inputs, m: nat) returns (o: seq<seq<F>>, lse: seq<F>)
    requires sc.t.Lawful() && c.Valid() && x.Valid(c)
    ensures |o| == |lse| == c.M
    ensures Walkable(c) ==> TileAttends(sc, c, x, m * c.M, c.BlockMax(m), TileKeys(c, m), PosInf, o, lse)
    ensures Walkable(c) && c.Fits() ==> TileDocumented(sc, c, x, m, m * c.M, o, lse)
  {
    var lo, hi := c.BlockMin(m), c.BlockMax(m);
    UnsplitWalkHasBlocks(c, m);
    MulMono(0, lo, c.N);
    if hi <= lo {
      MulMono(hi, lo, c.N);
    }
    o, lse := ExitOrWalk(sc, c, x, m * c.M, c.ExitsEarly(m), lo, hi, lo * c.N, hi * c.N);
    if Walkable(c) && c.Fits() {
      UnsplitTileAttends(sc, c, x, m, m * c.M, o, lse);
    }
  }

  /**
   With a scale that is not positive, a decode of one query against one key loses its output: the
   key is seen, but the block has 31 masked columns beside it.
   */
  method SpoiltDecode(t: Transcendental, scale: real, v: real) returns (o: seq<seq<F>>, lse: seq<F>)
    requires t.Lawful() && scale <= 0.0
    ensures |o| == |lse| == 16 && |o[0]| == 1 && !o[0][0].Fin?
    ensures var row := Row([0.0], [true]); !IsAttention(Scaling(t, scale), row, [[v]], 1, 0, 1, PosInf, o[0], lse[0])
  {
    var c, x := Config(16, 32, 1, 1, 0, 0, false, false, false), Inputs([[0.0]], [[v]], 1, (_, _) => NaN);
    o, lse := UnsplitTile(Scaling(t, scale), c, x, 0);
    assert c.BlockMin(0) == 0 && c.BlockMax(0) == 1;
    assert !RowOf(c, x, 0).Sees(1);
    assert RowOf(c, x, 0) == Row([0.0], [true]);
    assert RowAttends(Scaling(t, scale), RowOf(c, x, 0 + 0), x.v, 1, Span(0, 32), Span(0, 1), PosInf, PosInf,
                      RowResult(o[0], lse[0]));
  }

  /** So does the first of 64 queries of a causal prefill over 64 keys: it may not see the others of its block. */
  method SpoiltPrefill(t: Transcendental, scale: real, v: seq<seq<real>>) returns (o: seq<seq<F>>, lse: seq<F>)
    requires t.Lawful() && scale <= 0.0 && Matrix(v, 64, 1)
    ensures |o| == |lse| == 128 && |o[0]| == 1 && !o[0][0].Fin?
  {
    var c := Config(128, 64, 64, 64, 64, 0, true, false, false);
    var x := Inputs(seq(64, _ => seq(64, _ => 0.0)), v, 1, (_, _) => NaN);
    o, lse := UnsplitTile(Scaling(t, scale), c, x, 0);
    assert c.BlockMin(0) == 0 && c.BlockMax(0) == 1;
    assert !RowOf(c, x, 0).Sees(1);
    assert RowAttends(Scaling(t, scale), RowOf(c, x, 0 + 0), x.v, 1, Span(0, 64), Span(0, 64), PosInf, PosInf,
                      RowResult(o[0], lse[0]));
  }

  // ----- The split kernel

  /** A launch of tile `m`, whose first query is `row`, over several splits. */
  datatype SplitLaunch = SplitLaunch(c: Config, x: Inputs, m: nat, row: nat, seqlenK: nat, splits: nat) {
    ghost predicate Valid() {
      c.Valid() && x.Valid(c) && splits > 0 && row == m * c.M
    }

    /** The first key of split `k`, clamped to the tile's range. */
    ghost function KeyCut(k: nat): int
      requires c.N > 0 && splits > 0
    {
      Cut(c, m, seqlenK, splits, k) * c.N
    }

    /** The keys of split `k`. */
    ghost function SplitKeys(k: nat): Span
      requires c.N > 0 && splits > 0
    {
      Span(KeyCut(k), KeyCut(k + 1))
    }

    /** The keys of all splits. */
    ghost function AllKeys(): Span
      requires c.N > 0 && splits > 0
    {
      Span(KeyCut(0), KeyCut(splits))
    }

    /** The end of the split that owns block `n`. */
    ghost function OwnerEnd(n: nat): int
      requires c.N > 0 && splits > 0
    {
      var b := c.BlocksPerSplit(seqlenK, splits);
      if b == 0 then 0 else c.SplitMax(m, seqlenK, splits, n / b)
    }

    /** Query `i` with the mask that the walks of its splits apply. */
    ghost function MaskedRow(i: nat): Row
      requires Valid() && i < c.sq
    {
      Row(x.s[i], seq(c.sk, j requires 0 <= j => c.Scheduled(OwnerEnd(j / c.N), i, j)))
    }

    /** What split `k` leaves in row `i`: its attention over the split's keys. */
    ghost predicate SplitRow(sc: Scaling, i: nat, k: nat, none: F, out: RowResult)
      requires Valid() && i < c.sq
    {
      RowAttends(sc, MaskedRow(i), x.v, x.cols, SplitKeys(k), SplitKeys(k), none, Spoilt(sc.scale, c.N, none), out)
    }

    /** The sum of the weights of row `i` over those of the first `k` splits on whose keys it is safe. */
    ghost function SafeMass(sc: Scaling, i: nat, k: nat): real
      requires Valid() && i < c.sq
    {
      if k == 0 then 0.0
      else
        var lo, hi := KeyCut(k - 1), KeyCut(k);
        SafeMass(sc, i, k - 1) + if Safe(sc, MaskedRow(i), lo, hi) then Den(sc, MaskedRow(i), 0.0, lo, hi) else 0.0
    }

    /** The log-sum-exp of a row that is not safe: plus infinity, or after a combination that of its safe splits. */
    ghost function SpoiltSum(sc: Scaling, i: nat): F
      requires Valid() && i < c.sq
    {
      Spoilt(sc.scale, c.N, if splits == 1 then PosInf else LogMass(sc.t, SafeMass(sc, i, splits)))
    }

    /** The block of a key between two cuts belongs to the split between them. */
    lemma OwnerOfKey(k: nat, j: int)
      requires Valid() && KeyCut(k) <= j < KeyCut(k + 1)
      ensures 0 <= j && 0 <= j / c.N < c.SplitMax(m, seqlenK, splits, k) == OwnerEnd(j / c.N)
    {
      BlockOfKey(j, c.N, Cut(c, m, seqlenK, splits, k), Cut(c, m, seqlenK, splits, k + 1));
      SplitBetweenCuts(c, m, seqlenK, splits, k);
      OwnsExactly(c, m, seqlenK, splits, k, j / c.N);
      MulMono(0, Cut(c, m, seqlenK, splits, k), c.N);
    }

    /** The mask of a split's own walk is that of the launch on the split's keys. */
    lemma SplitMask(k: nat, i: nat)
      requires Valid() && i < c.sq
      ensures SameBetween(ScheduledRow(c, x, c.SplitMax(m, seqlenK, splits, k), i), MaskedRow(i), KeyCut(k),
                          KeyCut(k + 1))
    {
      forall j | KeyCut(k) <= j < KeyCut(k + 1)
        ensures ScheduledRow(c, x, c.SplitMax(m, seqlenK, splits, k), i).Sees(j) <==> MaskedRow(i).Sees(j)
      {
        OwnerOfKey(k, j);
      }
    }

    lemma NextCut(k: nat)
      requires Valid()
      ensures KeyCut(k) <= KeyCut(k + 1)
    {
      SplitBetweenCuts(c, m, seqlenK, splits, k);
      MulMono(Cut(c, m, seqlenK, splits, k), Cut(c, m, seqlenK, splits, k + 1), c.N);
    }

    lemma {:induction false} CutsOrdered(k: nat)
      requires Valid()
      ensures KeyCut(0) <= KeyCut(k)
      ensures KeyCut(0) == c.BlockMin(m) * c.N
      decreases k
    {
      assert Cut(c, m, seqlenK, splits, 0) == c.BlockMin(m);
      if k > 0 {
        CutsOrdered(k - 1);
        NextCut(k - 1);
      }
    }

    /** Every key between the first cut and a later one lies in one of the splits between them. */
    lemma {:induction false} SplitOfKey(n: nat, j: int) returns (k: nat)
      requires Valid() && KeyCut(0) <= j < KeyCut(n)
      ensures k < n && KeyCut(k) <= j < KeyCut(k + 1)
      decreases n
    {
      if KeyCut(n - 1) <= j {
        k := n - 1;
      } else {
        k := SplitOfKey(n - 1, j);
      }
    }

    /** If the tile shape fits, the mask of the launch is the documented one on the keys of its splits. */
    lemma MaskDocumented(i: nat)
      requires Valid() && c.Fits() && i < c.sq && c.RowOfTile(m, i)
      ensures SameBetween(MaskedRow(i), RowOf(c, x, i), KeyCut(0), KeyCut(splits))
    {
      forall j | KeyCut(0) <= j < KeyCut(splits)
        ensures MaskedRow(i).Sees(j) <==> RowOf(c, x, i).Sees(j)
      {
        var k := SplitOfKey(splits, j);
        OwnerOfKey(k, j);
        ScheduledIsVisible(c, m, c.SplitMax(m, seqlenK, splits, k), i, j);
      }
    }
  }

  /** Every existing row holds its attention over the keys of split `k`. */
  ghost predicate SplitDone(sc: Scaling, l: SplitLaunch, k: nat, none: F, o: seq<seq<F>>, lse: seq<F>)
    requires l.Valid()
  {
    && |o| == |lse| == l.c.M
    && (forall r :: 0 <= r < l.c.M ==> |o[r]| == l.x.cols)
    && forall r :: 0 <= r < l.c.M && l.row + r < l.c.sq ==>
      l.SplitRow(sc, l.row + r, k, none, RowResult(o[r], lse[r]))
  }

  lemma WalkedSplitDone(sc: Scaling, l: SplitLaunch, k: nat, none: F, o: seq<seq<F>>, lse: seq<F>)
    requires l.Valid()
    requires TileAttends(sc, l.c, l.x, l.row, l.c.SplitMax(l.m, l.seqlenK, l.splits, k), l.SplitKeys(k), none, o, lse)
    ensures SplitDone(sc, l, k, none, o, lse)
  {
    var hi := l.c.SplitMax(l.m, l.seqlenK, l.splits, k);
    forall r | 0 <= r < l.c.M && l.row + r < l.c.sq
      ensures l.SplitRow(sc, l.row + r, k, none, RowResult(o[r], lse[r]))
    {
      var i := l.row + r;
      l.SplitMask(k, i);
      RowAgrees(sc, ScheduledRow(l.c, l.x, hi, i), l.MaskedRow(i), l.x.v, l.x.v, l.x.cols, l.SplitKeys(k), none,
                Spoilt(sc.scale, l.c.N, none), RowResult(o[r], lse[r]));
    }
  }

  /** A split without blocks leaves zeros and the log-sum-exp of a row without keys. */
  lemma EmptySplitDone(sc: Scaling, l: SplitLaunch, k: nat, none: F, o: seq<seq<F>>, lse: seq<F>)
    requires l.Valid() && l.c.SplitMin(l.m, l.seqlenK, l.splits, k) >= l.c.SplitMax(l.m, l.seqlenK, l.splits, k)
    requires |o| == |lse| == l.c.M
    requires forall r :: 0 <= r < l.c.M ==> o[r] == seq(l.x.cols, _ => Fin(0.0)) && lse[r] == none
    ensures SplitDone(sc, l, k, none, o, lse)
  {
    SplitBetweenCuts(l.c, l.m, l.seqlenK, l.splits, k);
  }

  /**
   `compute_attn_1rowblock_splitkv` for split `k`, compiled for several splits or for one: every
   existing row holds its attention over the split's keys. The log-sum-exp of a row that sees none
   of them is minus infinity if there is a combination to come, and plus infinity otherwise.
   */
  method SplitTile(sc: Scaling, l: SplitLaunch, k: nat, split: bool) returns (o: seq<seq<F>>, lse: seq<F>)
    requires sc.t.Lawful() && l.Valid()
    ensures SplitDone(sc, l, k, NoKeys(split), o, lse)
  {
    var c := l.c;
    var lo, hi := c.SplitMin(l.m, l.seqlenK, l.splits, k), c.SplitMax(l.m, l.seqlenK, l.splits, k);
    if lo >= hi {
      o, lse := seq(c.M, _ => seq(l.x.cols, _ => Fin(0.0))), seq(c.M, _ => NoKeys(split));
      EmptySplitDone(sc, l, k, NoKeys(split), o, lse);
    } else {
      SplitBetweenCuts(c, l.m, l.seqlenK, l.splits, k);
      MulMono(0, k, c.BlocksPerSplit(l.seqlenK, l.splits));
      o, lse := WalkTile(sc, Walk(c, l.x, l.row, lo, hi, lo * c.N, hi * c.N, c.causal || c.local || !c.even), split);
      WalkedSplitDone(sc, l, k, NoKeys(split), o, lse);
    }
  }

  // ----- Splits and their combination

  /** What the splits wrote for one row. */
  function RowLses(lses: seq<seq<F>>, r: nat): seq<F>
    requires forall k :: 0 <= k < |lses| ==> r < |lses[k]|
  {
    seq(|lses|, k requires 0 <= k < |lses| => lses[k][r])
  }

  function RowOuts(os: seq<seq<seq<F>>>, r: nat): seq<seq<F>>
    requires forall k :: 0 <= k < |os| ==> r < |os[k]|
  {
    seq(|os|, k requires 0 <= k < |os| => os[k][r])
  }

  /** The results `lses` and `os` of the first splits of row `i` of a launch, as a combination reads them. */
  ghost predicate PartsOf(sc: Scaling, l: SplitLaunch, i: nat, lses: seq<F>, os: seq<seq<F>>)
    requires l.Valid() && i < l.c.sq
  {
    && |lses| == |os|
    && forall k :: 0 <= k < |os| ==> l.SplitRow(sc, i, k, NegInf, RowResult(os[k], lses[k]))
  }

  lemma {:induction false} CutsBelow(l: SplitLaunch, k: nat, n: nat)
    requires l.Valid() && k <= n
    ensures l.KeyCut(k) <= l.KeyCut(n)
    decreases n
  {
    if k < n {
      CutsBelow(l, k, n - 1);
      l.NextCut(n - 1);
    }
  }

  /** The split results of a safe row are its attention between the cuts. */
  lemma RowHasParts(sc: Scaling, l: SplitLaunch, i: nat, lses: seq<F>, os: seq<seq<F>>, cuts: seq<int>)
    requires l.Valid() && i < l.c.sq && PartsOf(sc, l, i, lses, os) && |os| <= l.splits
    requires Safe(sc, l.MaskedRow(i), l.KeyCut(0), l.KeyCut(|os|))
    requires |cuts| == |os| + 1 && forall k :: 0 <= k <= |os| ==> cuts[k] == l.KeyCut(k)
    ensures SplitParts(sc, l.MaskedRow(i), l.x.v, l.x.cols, cuts, lses, os)
  {
    forall k | 0 <= k < |os|
      ensures cuts[k] <= cuts[k + 1]
      ensures IsAttention(sc, l.MaskedRow(i), l.x.v, l.x.cols, cuts[k], cuts[k + 1], NegInf, os[k], lses[k])
    {
      assert l.SplitRow(sc, i, k, NegInf, RowResult(os[k], lses[k]));
      l.CutsOrdered(k);
      l.NextCut(k);
      CutsBelow(l, k + 1, |os|);
      assert Safe(sc, l.MaskedRow(i), cuts[k], cuts[k + 1]);
    }
  }

  /** If a row is not safe, the split that walks a masked key leaves no number in it, and perhaps plus infinity. */
  lemma RowSpoiled(sc: Scaling, l: SplitLaunch, i: nat, lses: seq<F>, os: seq<seq<F>>)
    requires l.Valid() && i < l.c.sq && PartsOf(sc, l, i, lses, os)
    requires !Safe(sc, l.MaskedRow(i), l.KeyCut(0), l.KeyCut(|os|))
    ensures exists k :: 0 <= k < |os| && NoNumbers(os[k])
    ensures sc.scale < 0.0 && l.c.N >= 8 ==> PosInf in lses
  {
    var j :| l.KeyCut(0) <= j < l.KeyCut(|os|) && !l.MaskedRow(i).Sees(j);
    var k := l.SplitOfKey(|os|, j);
    assert !Safe(sc, l.MaskedRow(i), l.KeyCut(k), l.KeyCut(k + 1));
    assert l.SplitRow(sc, i, k, NegInf, RowResult(os[k], lses[k]));
  }

  /** The mass of a split that is safe is the sum of its weights, and none is left of one that is not. */
  lemma {:induction false} SafeMasses(sc: Scaling, l: SplitLaunch, i: nat, lses: seq<F>, os: seq<seq<F>>, k: nat)
    requires sc.t.Lawful() && l.Valid() && i < l.c.sq && PartsOf(sc, l, i, lses, os) && k <= |os|
    ensures TotalMass(sc.t, lses, k) == l.SafeMass(sc, i, k)
    decreases k
  {
    if k > 0 {
      var keys := l.SplitKeys(k - 1);
      SafeMasses(sc, l, i, lses, os, k - 1);
      assert l.SplitRow(sc, i, k - 1, NegInf, RowResult(os[k - 1], lses[k - 1]));
      if Safe(sc, l.MaskedRow(i), keys.lo, keys.hi) {
        PartMass(sc, l.MaskedRow(i), l.x.v, l.x.cols, keys.lo, keys.hi, os[k - 1], lses[k - 1]);
      }
    }
  }

  /** A split leaves a number or minus infinity, or plus infinity if the scale is negative. */
  lemma PartLse(sc: Scaling, l: SplitLaunch, i: nat, lses: seq<F>, os: seq<seq<F>>, k: nat)
    requires l.Valid() && i < l.c.sq && PartsOf(sc, l, i, lses, os) && k < |os|
    ensures Score(lses[k]) || (sc.scale < 0.0 && lses[k] == PosInf)
  {
    assert l.SplitRow(sc, i, k, NegInf, RowResult(os[k], lses[k]));
  }

  /** The log-sum-exp of a combined row that is not safe. */
  lemma CombinedLse(sc: Scaling, l: SplitLaunch, i: nat, lses: seq<F>, os: seq<seq<F>>, out: RowResult)
    requires sc.t.Lawful() && l.Valid() && i < l.c.sq && PartsOf(sc, l, i, lses, os) && |os| == l.splits
    requires RowCombined(sc.t, lses, os, l.x.cols, out.o, out.lse)
    requires l.splits > 1 && !Safe(sc, l.MaskedRow(i), l.KeyCut(0), l.KeyCut(l.splits))
    ensures SpoiltLse(sc.scale, l.SpoiltSum(sc, i), out.lse)
  {
    RowSpoiled(sc, l, i, lses, os);
    forall k | 0 <= k < |lses|
      ensures Score(lses[k]) || (sc.scale < 0.0 && lses[k] == PosInf)
    {
      PartLse(sc, l, i, lses, os, k);
    }
    if PosInf !in lses {
      assert Scores(lses);
      SafeMasses(sc, l, i, lses, os, l.splits);
    }
  }

  /** Combining the splits of a row gives its attention over the keys of all splits. */
  lemma RowCombines(sc: Scaling, l: SplitLaunch, i: nat, lses: seq<F>, os: seq<seq<F>>, out: RowResult)
    requires sc.t.Lawful() && l.Valid() && i < l.c.sq && PartsOf(sc, l, i, lses, os) && |os| == l.splits > 1
    requires RowCombined(sc.t, lses, os, l.x.cols, out.o, out.lse)
    ensures RowAttends(sc, l.MaskedRow(i), l.x.v, l.x.cols, l.AllKeys(), l.AllKeys(), PosInf, l.SpoiltSum(sc, i), out)
  {
    var row := l.MaskedRow(i);
    if Safe(sc, row, l.KeyCut(0), l.KeyCut(l.splits)) {
      var cuts := seq(l.splits + 1, k requires 0 <= k => l.KeyCut(k));
      RowHasParts(sc, l, i, lses, os, cuts);
      PartsCombinable(sc, row, l.x.v, l.x.cols, cuts, lses, os);
      CombinedIsAttention(sc, row, l.x.v, l.x.cols, cuts, lses, os, out.o, out.lse);
    } else {
      RowSpoiled(sc, l, i, lses, os);
      CombinedLse(sc, l, i, lses, os, out);
    }
  }

  /** Splits that reach the end of the tile's range have walked exactly the tile's keys. */
  lemma ReachedKeys(sc: Scaling, l: SplitLaunch, row: Row)
    requires l.Valid() && SplitsReach(l.c, l.m, l.seqlenK, l.splits)
    ensures var walked, keys := l.AllKeys(), TileKeys(l.c, l.m);
            Safe(sc, row, walked.lo, walked.hi) <==> Safe(sc, row, keys.lo, keys.hi)
  {
    var lo, hi := l.c.BlockMin(l.m), l.c.BlockMax(l.m);
    l.CutsOrdered(0);
    assert Cut(l.c, l.m, l.seqlenK, l.splits, l.splits) == IntMath.Max(lo, hi);
    if hi <= lo {
      MulMono(hi, lo, l.c.N);
    }
  }

  /**
   If the tile shape fits, the result of a launch is documented attention: over the keys before the
   last cut, and over all keys, given the tile's keys, if the splits reach them.
   */
  lemma LaunchDocumented(sc: Scaling, l: SplitLaunch, i: nat, spoilt: F, out: RowResult)
    requires l.Valid() && l.c.Fits() && i < l.c.sq && l.c.RowOfTile(l.m, i)
    requires RowAttends(sc, l.MaskedRow(i), l.x.v, l.x.cols, l.AllKeys(), l.AllKeys(), PosInf, spoilt, out)
    ensures RowAttends(sc, RowOf(l.c, l.x, i), l.x.v, l.x.cols, l.AllKeys(), Span(0, l.KeyCut(l.splits)), PosInf,
                       spoilt, out)
    ensures SplitsReach(l.c, l.m, l.seqlenK, l.splits) ==>
      RowAttends(sc, RowOf(l.c, l.x, i), l.x.v, l.x.cols, TileKeys(l.c, l.m), Span(0, l.c.sk), PosInf, spoilt, out)
  {
    var c, row := l.c, RowOf(l.c, l.x, i);
    var lo, end := c.BlockMin(l.m), Cut(c, l.m, l.seqlenK, l.splits, l.splits);
    l.MaskDocumented(i);
    l.CutsOrdered(l.splits);
    RowAgrees(sc, l.MaskedRow(i), row, l.x.v, l.x.v, l.x.cols, l.AllKeys(), PosInf, spoilt, out);
    if SplitsReach(c, l.m, l.seqlenK, l.splits) {
      ReachedKeys(sc, l, row);
    }
    if Safe(sc, row, l.KeyCut(0), l.KeyCut(l.splits)) {
      RowSeesOnlyRange(c, l.x, l.m, i, lo, IntMath.Max(lo, c.BlockMax(l.m)));
      AttentionWiden(sc, row, l.x.v, l.x.cols, 0, l.KeyCut(0), l.KeyCut(l.splits), l.KeyCut(l.splits), PosInf,
                     out.o, out.lse);
      if SplitsReach(c, l.m, l.seqlenK, l.splits) {
        AttentionOverAllKeys(sc, c, l.x, l.m, i, lo, end, PosInf, out.o, out.lse);
      }
    }
  }

  /** If query `i` exists, its row is left with its attention over the keys of all splits. */
  ghost predicate LaunchRowDone(sc: Scaling, l: SplitLaunch, i: nat, out: RowResult)
    requires l.Valid()
  {
    i < l.c.sq ==>
      RowAttends(sc, l.MaskedRow(i), l.x.v, l.x.cols, l.AllKeys(), l.AllKeys(), PosInf, l.SpoiltSum(sc, i), out)
  }

  /** The results of a launch: every existing row is its attention over the keys of all splits. */
  ghost predicate LaunchDone(sc: Scaling, l: SplitLaunch, o: seq<seq<F>>, lse: seq<F>)
    requires l.Valid()
  {
    |o| == |lse| == l.c.M && forall r :: 0 <= r < l.c.M ==> LaunchRowDone(sc, l, l.row + r, RowResult(o[r], lse[r]))
  }

  /** Every existing row is left with its documented attention over `keys`, given that `walked` was read. */
  ghost predicate LaunchAttends(sc: Scaling, l: SplitLaunch, walked: Span, keys: Span, o: seq<seq<F>>, lse: seq<F>)
    requires l.Valid()
  {
    && |o| == |lse| == l.c.M
    && forall r :: 0 <= r < l.c.M && l.row + r < l.c.sq ==>
      RowAttends(sc, RowOf(l.c, l.x, l.row + r), l.x.v, l.x.cols, walked, keys, PosInf, l.SpoiltSum(sc, l.row + r),
                 RowResult(o[r], lse[r]))
  }

  lemma DoneMeansAttends(sc: Scaling, l: SplitLaunch, o: seq<seq<F>>, lse: seq<F>)
    requires l.Valid() && l.c.Fits() && LaunchDone(sc, l, o, lse)
    ensures LaunchAttends(sc, l, l.AllKeys(), Span(0, l.KeyCut(l.splits)), o, lse)
    ensures SplitsReach(l.c, l.m, l.seqlenK, l.splits) ==>
      LaunchAttends(sc, l, TileKeys(l.c, l.m), Span(0, l.c.sk), o, lse)
  {
    forall r | 0 <= r < l.c.M && l.row + r < l.c.sq
      ensures RowAttends(sc, RowOf(l.c, l.x, l.row + r), l.x.v, l.x.cols, l.AllKeys(), Span(0, l.KeyCut(l.splits)),
                         PosInf, l.SpoiltSum(sc, l.row + r), RowResult(o[r], lse[r]))
      ensures SplitsReach(l.c, l.m, l.seqlenK, l.splits) ==>
        RowAttends(sc, RowOf(l.c, l.x, l.row + r), l.x.v, l.x.cols, TileKeys(l.c, l.m), Span(0, l.c.sk), PosInf,
                   l.SpoiltSum(sc, l.row + r), RowResult(o[r], lse[r]))
    {
      DistributeAdd(l.m, 1, l.c.M);
      assert LaunchRowDone(sc, l, l.row + r, RowResult(o[r], lse[r]));
      LaunchDocumented(sc, l, l.row + r, l.SpoiltSum(sc, l.row + r), RowResult(o[r], lse[r]));
    }
  }

  ghost predicate SplitsDone(sc: Scaling, l: SplitLaunch, os: seq<seq<seq<F>>>, lses: seq<seq<F>>)
    requires l.Valid()
  {
    && |os| == |lses|
    && forall k :: 0 <= k < |os| ==> SplitDone(sc, l, k, NegInf, os[k], lses[k])
  }

  lemma RowPartsOf(sc: Scaling, l: SplitLaunch, os: seq<seq<seq<F>>>, lses: seq<seq<F>>, r: nat)
    requires l.Valid() && SplitsDone(sc, l, os, lses) && r < l.c.M
    ensures forall k :: 0 <= k < |os| ==> |os[k]| == |lses[k]| == l.c.M && |os[k][r]| == l.x.cols
    ensures l.row + r < l.c.sq ==> PartsOf(sc, l, l.row + r, RowLses(lses, r), RowOuts(os, r))
  {
    forall k | 0 <= k < |os|
      ensures |os[k]| == |lses[k]| == l.c.M && |os[k][r]| == l.x.cols
      ensures l.row + r < l.c.sq ==>
        l.SplitRow(sc, l.row + r, k, NegInf, RowResult(os[k][r], lses[k][r]))
    {
      assert SplitDone(sc, l, k, NegInf, os[k], lses[k]);
    }
  }

  lemma PartsDone(sc: Scaling, l: SplitLaunch, i: nat, lses: seq<F>, os: seq<seq<F>>, out: RowResult)
    requires sc.t.Lawful() && l.Valid() && (i < l.c.sq ==> PartsOf(sc, l, i, lses, os)) && |os| == l.splits > 1
    requires RowCombined(sc.t, lses, os, l.x.cols, out.o, out.lse)
    ensures LaunchRowDone(sc, l, i, out)
  {
    if i < l.c.sq {
      RowCombines(sc, l, i, lses, os, out);
    }
  }

  /** The thread blocks of all splits, each with its own part of the accumulation buffers. */
  method RunSplits(sc: Scaling, l: SplitLaunch) returns (os: seq<seq<seq<F>>>, lses: seq<seq<F>>)
    requires sc.t.Lawful() && l.Valid()
    ensures |os| == l.splits && SplitsDone(sc, l, os, lses)
  {
    os, lses := [], [];
    for k := 0 to l.splits
      invariant |os| == k && SplitsDone(sc, l, os, lses)
    {
      var ok, lk := SplitTile(sc, l, k, true);
      os, lses := os + [ok], lses + [lk];
    }
  }

  /** `combine_attn_seqk_parallel` on what the splits wrote for row `i`. */
  method CombineParts(sc: Scaling, l: SplitLaunch, i: nat, lses: seq<F>, os: seq<seq<F>>, lanes: nat, slots: nat)
    returns (out: seq<F>, lse: F)
    requires sc.t.Lawful() && l.Valid() && (i < l.c.sq ==> PartsOf(sc, l, i, lses, os)) && |lses| == |os| == l.splits
    requires 1 < l.splits <= slots && PowerOfTwo(lanes) && 2 <= lanes <= slots
    requires forall k :: 0 <= k < |os| ==> |os[k]| == l.x.cols
    ensures LaunchRowDone(sc, l, i, RowResult(out, lse))
  {
    out, lse := CombineRow(sc.t, lses, os, l.x.cols, lanes, slots);
    PartsDone(sc, l, i, lses, os, RowResult(out, lse));
  }

  /** Several splits, each computed on its own, and their combination row by row. */
  method CombineSplits(sc: Scaling, l: SplitLaunch, lanes: nat, slots: nat) returns (o: seq<seq<F>>, lse: seq<F>)
    requires sc.t.Lawful() && l.Valid() && 1 < l.splits <= slots && PowerOfTwo(lanes) && 2 <= lanes <= slots
    ensures LaunchDone(sc, l, o, lse)
  {
    var os, lses := RunSplits(sc, l);
    o, lse := [], [];
    for r := 0 to l.c.M
      invariant |o| == |lse| == r
      invariant forall q :: 0 <= q < r ==> LaunchRowDone(sc, l, l.row + q, RowResult(o[q], lse[q]))
    {
      RowPartsOf(sc, l, os, lses, r);
      var outRow, lseRow := CombineParts(sc, l, l.row + r, RowLses(lses, r), RowOuts(os, r), lanes, slots);
      o, lse := o + [outRow], lse + [lseRow];
    }
  }

  /**
   A tile computed by any number of splits. One split writes the output itself; several are
   combined. Every existing row ends with its attention over the keys of all splits, including rows
   without visible keys and splits without blocks. If the tile shape fits, that is the documented
   attention over the keys before the last cut, and over all keys if the splits reach them.
   */
  method SplitAndCombine(sc: Scaling, l: SplitLaunch, lanes: nat, slots: nat) returns (o: seq<seq<F>>, lse: seq<F>)
    requires sc.t.Lawful() && l.Valid() && l.splits <= slots && PowerOfTwo(lanes) && 2 <= lanes <= slots
    ensures LaunchDone(sc, l, o, lse)
    ensures l.c.Fits() ==> LaunchAttends(sc, l, l.AllKeys(), Span(0, l.KeyCut(l.splits)), o, lse)
    ensures l.c.Fits() && SplitsReach(l.c, l.m, l.seqlenK, l.splits) ==>
      LaunchAttends(sc, l, TileKeys(l.c, l.m), Span(0, l.c.sk), o, lse)
  {
    if l.splits == 1 {
      o, lse := SplitTile(sc, l, 0, false);
    } else {
      o, lse := CombineSplits(sc, l, lanes, slots);
    }
    if l.c.Fits() {
      DoneMeansAttends(sc, l, o, lse);
    }
  }
}
