/**
 Appending new K or V rows to the cache (pod_attn/pod_attn/fused_fwd_kernel.h,
 pod_attn/pod_attn/utils.h): every thread block copies the new rows of the blocks it is about to
 read, without waiting for the others. K and V are appended alike, so one tensor is modelled.
 */
module AppendCache {
  import opened IntMath
  import opened PagedCache
  import opened MaskSchedule

  /** The rows of a cache do not overlap. */
  ghost predicate Separate(c: Cache) {
    && c.rowStride > 0
    && (c.Paged? ==> c.batchStride >= c.pageSize * c.rowStride)
    && (c.Paged? ==> forall a, b :: 0 <= a < b < |c.table| ==> c.table[a] != c.table[b])
  }

  /**
   The cache and the tile height, how many rows it held and how many it will hold, and where the
   new rows are.
   */
  datatype Job = Job(c: Cache, N: nat, cached: nat, total: nat, newBase: int, newStride: int) {
    /** `j` is a new row. */
    predicate New(j: int) {
      cached <= j < total
    }

    /** The address of row `j` of the extended sequence among the new rows. */
    function Source(j: int): int {
      newBase + (j - cached) * newStride
    }

    predicate RowFits(j: int, size: nat, newSize: nat) {
      c.HasRow(j) && 0 <= c.RowAddress(j) < size && 0 <= Source(j) < newSize
    }

    /** Tiles lie in pages, different rows are at different addresses, and new rows fit in both buffers. */
    ghost predicate Valid(size: nat, newSize: nat) {
      && TilesFit(c, N) && Separate(c)
      && forall j :: New(j) ==> RowFits(j, size, newSize)
    }
  }

  // ----- Copies of rows, in any order

  ghost predicate AllNew(job: Job, js: seq<int>) {
    forall j :: j in js ==> job.New(j)
  }

  /** The cache after copying the rows `js`, one after the other. */
  ghost function WriteRows<T>(job: Job, src: seq<T>, mem: seq<T>, js: seq<int>): (r: seq<T>)
    requires job.Valid(|mem|, |src|) && AllNew(job, js)
    ensures |r| == |mem|
  {
    if js == [] then mem
    else
      var last := js[|js| - 1];
      assert last in js && job.New(last) && job.RowFits(last, |mem|, |src|);
      WriteRows(job, src, mem, js[..|js| - 1])[job.c.RowAddress(last) := src[job.Source(last)]]
  }

  lemma WriteOneMore<T>(job: Job, src: seq<T>, mem: seq<T>, js: seq<int>, j: int)
    requires job.Valid(|mem|, |src|) && AllNew(job, js) && job.New(j)
    ensures AllNew(job, js + [j]) && job.RowFits(j, |mem|, |src|)
    ensures WriteRows(job, src, mem, js + [j])
            == WriteRows(job, src, mem, js)[job.c.RowAddress(j) := src[job.Source(j)]]
  {
    assert (js + [j])[..|js|] == js;
  }

  lemma {:induction false} WriteMore<T>(job: Job, src: seq<T>, mem: seq<T>, js: seq<int>, ks: seq<int>)
    requires job.Valid(|mem|, |src|) && AllNew(job, js) && AllNew(job, ks)
    ensures AllNew(job, js + ks)
    ensures WriteRows(job, src, mem, js + ks) == WriteRows(job, src, WriteRows(job, src, mem, js), ks)
    decreases |ks|
  {
    if ks == [] {
      assert js + ks == js;
    } else {
      var n := |ks| - 1;
      assert ks[n] in ks;
      WriteMore(job, src, mem, js, ks[..n]);
      assert js + ks == js + ks[..n] + [ks[n]];
      WriteOneMore(job, src, mem, js + ks[..n], ks[n]);
    }
  }

  ghost predicate Untouched(job: Job, js: seq<int>, a: int) {
    forall j :: j in js && job.c.HasRow(j) ==> job.c.RowAddress(j) != a
  }

  /** `mem` is `was` with exactly the rows `js` replaced by the new ones. */
  ghost predicate Appended<T>(job: Job, src: seq<T>, was: seq<T>, js: seq<int>, mem: seq<T>)
    requires job.Valid(|was|, |src|) && AllNew(job, js)
  {
    && |mem| == |was|
    && (forall j :: j in js ==> job.RowFits(j, |was|, |src|) && mem[job.c.RowAddress(j)] == src[job.Source(j)])
    && forall a :: 0 <= a < |mem| && Untouched(job, js, a) ==> mem[a] == was[a]
  }

  /** In whatever order and however often rows are copied, each copied row is new and the rest is as before. */
  lemma {:induction false} AnyOrder<T>(job: Job, src: seq<T>, was: seq<T>, js: seq<int>)
    requires job.Valid(|was|, |src|) && AllNew(job, js)
    ensures Appended(job, src, was, js, WriteRows(job, src, was, js))
    decreases |js|
  {
    if js != [] {
      var front, last := js[..|js| - 1], js[|js| - 1];
      assert js == front + [last] && last in js;
      AnyOrder(job, src, was, front);
      WriteOneMore(job, src, was, front, last);
      forall j | j in js
        ensures job.RowFits(j, |was|, |src|)
        ensures WriteRows(job, src, was, js)[job.c.RowAddress(j)] == src[job.Source(j)]
      {
        assert job.New(j) && job.RowFits(j, |was|, |src|);
        if j != last {
          assert j in front;
          AddressesDistinct(job.c, j, last);
        }
      }
      forall a | 0 <= a < |was| && Untouched(job, js, a)
        ensures WriteRows(job, src, was, js)[a] == was[a]
      {
        assert Untouched(job, front, a);
      }
    }
  }

  lemma OtherRowUntouched(job: Job, js: seq<int>, j: int)
    requires Separate(job.c) && job.c.HasRow(j) && j !in js
    ensures Untouched(job, js, job.c.RowAddress(j))
  {
    forall k | k in js && job.c.HasRow(k)
      ensures job.c.RowAddress(k) != job.c.RowAddress(j)
    {
      AddressesDistinct(job.c, k, j);
    }
  }

  /**
   A thread block that has copied the new rows of its own blocks reads the extended sequence
   there, whatever rows the others have copied by then.
   */
  lemma ReadsExtended<T>(job: Job, src: seq<T>, was: seq<T>, js: seq<int>, lo: int, hi: int, j: int)
    requires job.Valid(|was|, |src|) && AllNew(job, js)
    requires forall k :: job.New(k) && lo <= k < hi ==> k in js
    requires lo <= j < hi && j < job.total && job.c.HasRow(j) && 0 <= job.c.RowAddress(j) < |was|
    ensures job.New(j) ==> job.RowFits(j, |was|, |src|)
    ensures WriteRows(job, src, was, js)[job.c.RowAddress(j)] ==
            if j < job.cached then was[job.c.RowAddress(j)] else src[job.Source(j)]
  {
    AnyOrder(job, src, was, js);
    if j < job.cached {
      OtherRowUntouched(job, js, j);
    }
  }

  // ----- One thread block

  /** `copy_w_min_idx` on one tile: copies the rows from `minRow` to `maxRow`. */
  method CopyTile<T>(job: Job, src: seq<T>, dst: array<T>, n: nat, dPtr: int, sPtr: int, maxRow: int, minRow: int)
    returns (ghost rows: seq<int>)
    requires job.Valid(dst.Length, |src|) && job.c.HasTile(job.N, n)
    requires dPtr == job.c.TileAddress(job.N, n) && sPtr == job.Source(n * job.N)
    requires maxRow == job.total - n * job.N && minRow == job.cached - n * job.N
    modifies dst
    ensures AllNew(job, rows) && dst[..] == WriteRows(job, src, old(dst[..]), rows)
    ensures forall j :: j in rows <==> job.New(j) && n * job.N <= j < n * job.N + job.N
  {
    ghost var first := n * job.N;
    rows := [];
    var m := 0;
    while m < job.N
      invariant m <= job.N && AllNew(job, rows) && dst[..] == WriteRows(job, src, old(dst[..]), rows)
      invariant forall j :: j in rows <==> job.New(j) && first <= j < first + m
    {
      if m >= minRow && m < maxRow {
        TileRows(job.c, job.N, n, m);
        DistributeAdd(first - job.cached, m, job.newStride);
        WriteOneMore(job, src, old(dst[..]), rows, first + m);
        dst[dPtr + m * job.c.rowStride] := src[sPtr + m * job.newStride];
        rows := rows + [first + m];
      }
      m := m + 1;
    }
  }

  /** The move of the cache pointer at the end of an iteration. */
  method NextPointer(job: Job, ghost nMin: int, ghost nMax: int, copyMin: int, n: int, ptr: int) returns (ptr': int)
    requires 0 <= nMin <= copyMin <= n < nMax && HasTiles(job.c, job.N, nMin, nMax)
    requires job.c.HasTile(job.N, n) && ptr == job.c.TileAddress(job.N, n)
    ensures n > copyMin ==> job.c.HasTile(job.N, n - 1) && ptr' == job.c.TileAddress(job.N, n - 1)
  {
    DistributeSub(n, 1, job.N);
    if n > copyMin {
      assert job.c.HasTile(job.N, n - 1);
      MovedExact(job.c, job.N, n * job.N, (n - 1) * job.N);
    }
    if job.c.Contiguous? {
      ptr' := ptr - job.N * job.c.rowStride;
    } else if n > copyMin {
      ptr' := job.c.Moved(ptr, job.N, n * job.N, (n - 1) * job.N);
    } else {
      ptr' := ptr;
    }
  }

  /** Stopping at the first block that can have new rows leaves no new row of the range behind. */
  lemma CopiedRange(job: Job, nMin: int, nMax: int, n: int)
    requires job.N > 0 && 0 <= nMin < nMax && Min(Max(nMin, job.cached / job.N), nMax) - 1 == n
    ensures forall j :: job.New(j) ==> (n * job.N + job.N <= j < nMax * job.N <==> nMin * job.N <= j < nMax * job.N)
  {
    var b := job.cached / job.N;
    QuotientBounds(job.cached, job.N);
    DistributeAdd(n, 1, job.N);
    MulMono(nMin, n + 1, job.N);
    if b > nMin {
      MulMono(n + 1, b, job.N);
    }
    if b > nMax {
      MulMono(nMax, b, job.N);
    }
  }

  /**
   The copy loop of one thread block, from its last block down to the first one that can have new
   rows. It copies exactly the new rows of its blocks.
   */
  method Append<T>(job: Job, src: seq<T>, dst: array<T>, nMin: int, nMax: int) returns (ghost rows: seq<int>)
    requires job.Valid(dst.Length, |src|) && 0 <= nMin < nMax && HasTiles(job.c, job.N, nMin, nMax)
    modifies dst
    ensures AllNew(job, rows) && dst[..] == WriteRows(job, src, old(dst[..]), rows)
    ensures forall j :: j in rows <==> job.New(j) && nMin * job.N <= j < nMax * job.N
  {
    rows := [];
    QuotientBounds(job.cached, job.N);
    var copyMin := Max(nMin, job.cached / job.N);
    var n := nMax - 1;
    assert job.c.HasTile(job.N, n);
    StartExact(job.c, n * job.N);
    var dPtr := job.c.Start(n * job.N);
    DistributeSub(n * job.N, job.cached, job.newStride);
    var sPtr := job.newBase + (n * job.N) * job.newStride - job.cached * job.newStride;
    DistributeAdd(n, 1, job.N);
    while n >= copyMin
      invariant Min(copyMin, nMax) - 1 <= n < nMax
      invariant n >= copyMin ==> job.c.HasTile(job.N, n) && dPtr == job.c.TileAddress(job.N, n)
      invariant sPtr == job.Source(n * job.N)
      invariant AllNew(job, rows) && dst[..] == WriteRows(job, src, old(dst[..]), rows)
      invariant forall j :: j in rows <==> job.New(j) && n * job.N + job.N <= j < nMax * job.N
    {
      ghost var before := rows;
      ghost var more := CopyTile(job, src, dst, n, dPtr, sPtr, job.total - n * job.N, job.cached - n * job.N);
      WriteMore(job, src, old(dst[..]), rows, more);
      rows := rows + more;
      DistributeSub(n, 1, job.N);
      DistributeSub(n * job.N - job.cached, job.N, job.newStride);
      MulMono(n + 1, nMax, job.N);
      DistributeAdd(n, 1, job.N);
      sPtr := sPtr - job.N * job.newStride;
      dPtr := NextPointer(job, nMin, nMax, copyMin, n, dPtr);
      n := n - 1;
    }
    CopiedRange(job, nMin, nMax, n);
  }

  // ----- All thread blocks

  /** Split `i` of query tile `m` copies row `j`: it is new and in one of its blocks. */
  predicate Copies(c: Config, cached: nat, seqlenK: nat, splits: nat, m: int, i: nat, j: int)
    requires c.N > 0 && splits > 0
  {
    0 <= m && m * c.M < c.sq && i < splits && cached <= j < c.sk && Owns(c, m, seqlenK, splits, i, j / c.N)
  }

  ghost predicate CopiedBySome(c: Config, cached: nat, seqlenK: nat, splits: nat, j: int)
    requires c.N > 0 && splits > 0
  {
    exists m: int, i: nat :: Copies(c, cached, seqlenK, splits, m, i, j)
  }

  lemma TruncBelowCeil(x: int, y: int, N: nat)
    requires N > 0 && x <= y && TruncDiv(x, N) > 0
    ensures TruncDiv(x, N) <= CeilDiv(y, N)
  {
    var n := TruncDiv(x, N);
    TruncDivBelow(x, N, n - 1);
    DistributeAdd(n - 1, 1, N);
    CeilDivAbove(y, N, n - 1, n * N - 1);
  }

  /** A window begins no later than where the previous tile's window ends. */
  lemma NextTileOverlaps(c: Config, m: nat)
    requires c.Valid() && c.local && m > 0
    ensures c.WindowMin(m) <= Max(0, c.WindowMax(m - 1))
  {
    var x, y := m * c.M + c.sk - c.sq - c.wl, m * c.M + c.sk - c.sq + c.wr;
    if c.WindowMin(m) > 0 {
      TruncBelowCeil(x, y, c.N);
    }
  }

  /** Some query tile's range has every block from the first tile's first block to the last key. */
  lemma {:induction false} TileWithBlock(c: Config, n: int, last: nat) returns (m: nat)
    requires c.Valid() && c.BlockMin(0) <= n < c.BlockMax(last)
    ensures m <= last && c.BlockMin(m) <= n < c.BlockMax(m)
  {
    if last == 0 || c.BlockMax(last - 1) <= n {
      m := last;
      if last > 0 && c.local {
        NextTileOverlaps(c, last);
      }
    } else {
      m := TileWithBlock(c, n, last - 1);
    }
  }

  lemma CeilMono(a: nat, b: int, N: nat)
    requires N > 0 && a <= b
    ensures CeilDiv(a, N) <= CeilDiv(b, N)
  {
    var n := CeilDiv(a, N);
    CeilDivBounds(a, N);
    if n > 0 {
      CeilDivAbove(b, N, n - 1, a - 1);
    } else {
      CeilDivBounds(b, N);
    }
  }

  lemma LastTileReachesEnd(c: Config, last: nat)
    requires c.Valid() && c.sq <= (last + 1) * c.M
    ensures c.BlockMax(last) == CeilDiv(c.sk, c.N)
  {
    if c.causal || c.local {
      CeilMono(c.sk, (last + 1) * c.M + c.sk - c.sq + c.wr, c.N);
    }
  }

  lemma WindowsMoveRight(c: Config, m: nat)
    requires c.Valid()
    ensures c.BlockMin(0) <= c.BlockMin(m)
  {
    if c.local && c.WindowMin(0) > 0 {
      var x := c.sk - c.sq - c.wl;
      MulMono(0, m, c.M);
      TruncDivBelow(x, c.N, c.WindowMin(0) - 1);
      QuotientBounds(m * c.M + x, c.N);
      QuotientBounds(x, c.N);
      if (m * c.M + x) / c.N < x / c.N {
        MulMono((m * c.M + x) / c.N + 1, x / c.N, c.N);
      }
    }
  }

  /** A query tile that exists and whose range has the block of key `j`. */
  lemma TileOfNewRow(c: Config, j: nat) returns (m: nat)
    requires c.Valid() && c.sq > 0 && j < c.sk && c.BlockMin(0) <= j / c.N
    ensures m * c.M < c.sq && c.BlockMin(m) <= j / c.N < c.BlockMax(m)
  {
    var last := (c.sq - 1) / c.M;
    QuotientBounds(c.sq - 1, c.M);
    LastTileReachesEnd(c, last);
    QuotientBounds(j, c.N);
    CeilDivAbove(c.sk, c.N, j / c.N, j);
    m := TileWithBlock(c, j / c.N, last);
    MulMono(m, last, c.M);
  }

  /**
   The thread blocks of a launch together copy exactly the new rows from the first window's first
   block on, up to where the splits end.
   */
  lemma CopiedRows(c: Config, cached: nat, seqlenK: nat, splits: nat, j: int)
    requires c.Valid() && c.sq > 0 && splits > 0
    ensures CopiedBySome(c, cached, seqlenK, splits, j)
            <==> cached <= j < c.sk && c.BlockMin(0) <= j / c.N < splits * c.BlocksPerSplit(seqlenK, splits)
  {
    var n := j / c.N;
    if CopiedBySome(c, cached, seqlenK, splits, j) {
      var m: int, i: nat :| Copies(c, cached, seqlenK, splits, m, i, j);
      OwnedExactly(c, m, seqlenK, splits, n);
      assert OwnedBySome(c, m, seqlenK, splits, n);
      if m > 0 {
        WindowsMoveRight(c, m);
      }
    }
    if cached <= j < c.sk && c.BlockMin(0) <= n < splits * c.BlocksPerSplit(seqlenK, splits) {
      var m := TileOfNewRow(c, j);
      OwnedExactly(c, m, seqlenK, splits, n);
      var i: nat :| i < splits && Owns(c, m, seqlenK, splits, i, n);
      assert Copies(c, cached, seqlenK, splits, m, i, j);
    }
  }

  /** What a launch can check: its first window and its splits take in all new rows. */
  predicate CopiesAll(c: Config, cached: nat, seqlenK: nat, splits: nat)
    requires c.N > 0 && splits > 0
  {
    || cached >= c.sk
    || (c.BlockMin(0) <= cached / c.N && CeilDiv(c.sk, c.N) <= splits * c.BlocksPerSplit(seqlenK, splits))
  }

  lemma QuotientMono(a: int, b: int, N: nat)
    requires N > 0 && a <= b
    ensures a / N <= b / N
  {
    QuotientBounds(a, N);
    QuotientBounds(b, N);
    if b / N < a / N {
      MulMono(b / N + 1, a / N, N);
    }
  }

  lemma LastBlock(sk: nat, N: nat)
    requires N > 0 && sk > 0
    ensures (sk - 1) / N == CeilDiv(sk, N) - 1
  {
    CeilDivBounds(sk, N);
    QuotientUnique(sk - 1, N, CeilDiv(sk, N) - 1);
  }

  lemma CopiesAllExactly(c: Config, cached: nat, seqlenK: nat, splits: nat)
    requires c.Valid() && c.sq > 0 && splits > 0
    ensures CopiesAll(c, cached, seqlenK, splits)
            <==> forall j :: cached <= j < c.sk ==> CopiedBySome(c, cached, seqlenK, splits, j)
  {
    var end := splits * c.BlocksPerSplit(seqlenK, splits);
    forall j
      ensures CopiedBySome(c, cached, seqlenK, splits, j) <==> cached <= j < c.sk && c.BlockMin(0) <= j / c.N < end
    {
      CopiedRows(c, cached, seqlenK, splits, j);
    }
    if cached < c.sk {
      LastBlock(c.sk, c.N);
      if CopiesAll(c, cached, seqlenK, splits) {
        forall j | cached <= j < c.sk
          ensures CopiedBySome(c, cached, seqlenK, splits, j)
        {
          QuotientMono(cached, j, c.N);
          QuotientMono(j, c.sk - 1, c.N);
        }
      } else {
        assert !CopiedBySome(c, cached, seqlenK, splits, cached) || !CopiedBySome(c, cached, seqlenK, splits, c.sk - 1);
      }
    }
  }

  /**
   A whole launch, with the row copies of all its thread blocks in any order `js`: rows that were
   in the cache and everything else in the buffer are as before, every copied row holds its new
   value, and all new rows are copied if and only if the launch takes them in.
   */
  lemma AppendComplete<T>(c: Config, job: Job, seqlenK: nat, splits: nat, src: seq<T>, was: seq<T>, js: seq<int>)
    requires c.Valid() && c.sq > 0 && splits > 0
    requires job.N == c.N && job.total == c.sk && job.Valid(|was|, |src|)
    requires AllNew(job, js) && forall j :: j in js <==> CopiedBySome(c, job.cached, seqlenK, splits, j)
    ensures (forall j :: job.New(j) ==> j in js) <==> CopiesAll(c, job.cached, seqlenK, splits)
    ensures var mem := WriteRows(job, src, was, js);
            && (forall j :: CopiedBySome(c, job.cached, seqlenK, splits, j) ==>
                  job.RowFits(j, |was|, |src|) && mem[job.c.RowAddress(j)] == src[job.Source(j)])
            && (forall j :: !job.New(j) && job.c.HasRow(j) && 0 <= job.c.RowAddress(j) < |was| ==>
                  mem[job.c.RowAddress(j)] == was[job.c.RowAddress(j)])
            && (forall a :: 0 <= a < |was| && Untouched(job, js, a) ==> mem[a] == was[a])
  {
    CopiesAllExactly(c, job.cached, seqlenK, splits);
    AnyOrder(job, src, was, js);
    forall j | !job.New(j) && job.c.HasRow(j) && 0 <= job.c.RowAddress(j) < |was|
      ensures Untouched(job, js, job.c.RowAddress(j))
    {
      OtherRowUntouched(job, js, j);
    }
  }

  /** The append of one thread block: its copies are exactly those of its split. */
  method AppendSplit<T>(c: Config, job: Job, src: seq<T>, dst: array<T>, seqlenK: nat, splits: nat, m: nat, i: nat)
    returns (ghost rows: seq<int>)
    requires c.Valid() && splits > 0 && m * c.M < c.sq && i < splits
    requires job.N == c.N && job.total == c.sk && job.Valid(dst.Length, |src|)
    requires HasTiles(job.c, job.N, c.SplitMin(m, seqlenK, splits, i), c.SplitMax(m, seqlenK, splits, i))
    modifies dst
    ensures AllNew(job, rows) && dst[..] == WriteRows(job, src, old(dst[..]), rows)
    ensures forall j :: j in rows <==> Copies(c, job.cached, seqlenK, splits, m, i, j)
  {
    var nMin, nMax := c.SplitMin(m, seqlenK, splits, i), c.SplitMax(m, seqlenK, splits, i);
    if nMin >= nMax {
      rows := [];
    } else {
      MulMono(0, i, c.BlocksPerSplit(seqlenK, splits));
      rows := Append(job, src, dst, nMin, nMax);
    }
    forall j
      ensures j in rows <==> Copies(c, job.cached, seqlenK, splits, m, i, j)
    {
      BlockOfKey(j, c.N, nMin, nMax);
    }
  }

  /** With a window of one key, a single query and a hundred new rows, only those of the last block are copied. */
  lemma WindowSkipsNewRows()
    ensures var c := Config(16, 32, 1, 100, 0, 0, false, true, false);
            && c.Valid() && !CopiesAll(c, 0, 128, 1)
            && (forall j :: CopiedBySome(c, 0, 128, 1, j) <==> 96 <= j < 100)
  {
    var c := Config(16, 32, 1, 100, 0, 0, false, true, false);
    forall j
      ensures CopiedBySome(c, 0, 128, 1, j) <==> 96 <= j < 100
    {
      CopiedRows(c, 0, 128, 1, j);
    }
  }

  /** Sized for 128 keys and used with 129 new ones, a launch leaves the last out. */
  lemma ShortLaunchSkipsNewRows()
    ensures var c := Config(64, 128, 1, 129, 0, 0, false, false, false);
            && c.Valid() && !CopiesAll(c, 0, 128, 1)
            && (forall j :: CopiedBySome(c, 0, 128, 1, j) <==> 0 <= j < 128)
  {
    var c := Config(64, 128, 1, 129, 0, 0, false, false, false);
    forall j
      ensures CopiedBySome(c, 0, 128, 1, j) <==> 0 <= j < 128
    {
      CopiedRows(c, 0, 128, 1, j);
    }
  }
}
