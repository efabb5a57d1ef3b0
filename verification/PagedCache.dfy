/**
 Reading the KV cache (pod_attn/pod_attn/fused_fwd_kernel.h): the K and V pointers are moved from
 block to block, by differences of page-table entries when the cache is paged.
 */
module PagedCache {
  import opened IntMath

  /** Where the rows of one batch entry and KV head are: one after the other, or in pages. */
  datatype Cache =
    | Contiguous(base: int, rowStride: int)
    | Paged(base: int, rowStride: int, batchStride: int, pageSize: nat, table: seq<int>)
  {
    /** There is an address for row `j`. */
    predicate HasRow(j: int) {
      0 <= j && (Paged? ==> pageSize > 0 && j / pageSize < |table|)
    }

    /** The direct lookup. */
    function RowAddress(j: int): int
      requires HasRow(j)
    {
      if Contiguous? then base + j * rowStride
      else
        QuotientBounds(j, pageSize);
        base + table[j / pageSize] * batchStride + (j % pageSize) * rowStride
    }

    /** There is an address for the first row of block `n`. */
    predicate HasTile(N: nat, n: int) {
      HasRow(n * N)
    }

    function TileAddress(N: nat, n: int): int
      requires HasTile(N, n)
    {
      RowAddress(n * N)
    }

    /** The pointer of the first block, as set up before the walk. */
    function Start(row: int): int
      requires HasRow(row)
    {
      if Contiguous? then base + row * rowStride
      else
        QuotientBounds(row, pageSize);
        var idx := row / pageSize;
        base + table[idx] * batchStride + (row - idx * pageSize) * rowStride
    }

    /** The pointer moved from the block at row `cur` down to the block at row `next`. */
    function Moved(ptr: int, N: nat, cur: int, next: int): int
      requires HasRow(cur) && HasRow(next)
    {
      if Contiguous? then ptr - N * rowStride
      else
        QuotientBounds(cur, pageSize);
        QuotientBounds(next, pageSize);
        var idxCur, idxNext := cur / pageSize, next / pageSize;
        var offsetCur, offsetNext := cur - idxCur * pageSize, next - idxNext * pageSize;
        ptr + (table[idxNext] - table[idxCur]) * batchStride + (offsetNext - offsetCur) * rowStride
    }
  }

  lemma StartExact(c: Cache, row: int)
    requires c.HasRow(row)
    ensures c.Start(row) == c.RowAddress(row)
  {
    if c.Paged? {
      DivMod(row, c.pageSize);
    }
  }

  /** Moving a pointer by differences gives the address that a direct lookup gives. */
  lemma MovedExact(c: Cache, N: nat, cur: int, next: int)
    requires c.HasRow(cur) && c.HasRow(next) && next + N == cur
    ensures c.Moved(c.RowAddress(cur), N, cur, next) == c.RowAddress(next)
  {
    if c.Paged? {
      var idxCur, idxNext := cur / c.pageSize, next / c.pageSize;
      DivMod(cur, c.pageSize);
      DivMod(next, c.pageSize);
      QuotientBounds(cur, c.pageSize);
      QuotientBounds(next, c.pageSize);
      DistributeSub(c.table[idxNext], c.table[idxCur], c.batchStride);
      DistributeSub(next % c.pageSize, cur % c.pageSize, c.rowStride);
    } else {
      DistributeSub(cur, N, c.rowStride);
    }
  }

  // ----- Pages and tiles

  function PageOf(P: nat, j: int): int
    requires P > 0
  {
    j / P
  }

  /** The tile of block `n` lies in one page. */
  ghost predicate TileInPage(P: nat, N: nat, n: nat)
    requires P > 0
  {
    forall j :: n * N <= j < n * N + N ==> PageOf(P, j) == PageOf(P, n * N)
  }

  lemma TileBeforePageEnd(P: nat, N: nat, q: nat, n: nat, k: int)
    requires N > 0 && P == q * N && n * N < k * P
    ensures n * N + N <= k * P
  {
    assert k * (q * N) == (k * q) * N;
    if k * q <= n {
      MulMono(k * q, n, N);
    } else {
      MulMono(n + 1, k * q, N);
      DistributeAdd(n, 1, N);
    }
  }

  lemma SamePage(P: nat, N: nat, n: nat, i: int)
    requires P > 0 && N > 0 && P % N == 0 && 0 <= i < N
    ensures (n * N + i) / P == (n * N) / P && (n * N + i) % P == (n * N) % P + i
  {
    var k := (n * N) / P;
    DivMod(P, N);
    QuotientBounds(n * N, P);
    TileBeforePageEnd(P, N, P / N, n, k + 1);
    QuotientUnique(n * N + i, P, k);
    QuotientUnique(n * N, P, k);
  }

  lemma TileWithinPage(P: nat, N: nat, n: nat)
    requires P > 0 && N > 0 && P % N == 0
    ensures TileInPage(P, N, n)
  {
    forall j | n * N <= j < n * N + N
      ensures PageOf(P, j) == PageOf(P, n * N)
    {
      SamePage(P, N, n, j - n * N);
    }
  }

  /** Otherwise the last tile that begins in the first page runs into the second. */
  lemma TileAcrossPages(P: nat, N: nat, n: nat)
    requires P > 0 && N > 0 && P % N != 0 && n == P / N
    ensures !TileInPage(P, N, n)
  {
    DivMod(P, N);
    QuotientBounds(P, N);
    DistributeAdd(n, 1, N);
    QuotientUnique(n * N, P, 0);
    QuotientUnique(P, P, 1);
    assert PageOf(P, P) != PageOf(P, n * N);
  }

  /** Every tile lies in one page exactly when the tile height divides the page size. */
  lemma TilesInPages(P: nat, N: nat)
    requires P > 0 && N > 0
    ensures (forall n: nat :: TileInPage(P, N, n)) <==> P % N == 0
  {
    if P % N == 0 {
      forall n: nat
        ensures TileInPage(P, N, n)
      {
        TileWithinPage(P, N, n);
      }
    } else {
      TileAcrossPages(P, N, P / N);
    }
  }

  /** The cache is contiguous or its pages hold whole tiles. */
  predicate TilesFit(c: Cache, N: nat) {
    N > 0 && (c.Paged? ==> c.pageSize > 0 && c.pageSize % N == 0)
  }

  /** The host's check on the page size, and the tile heights that the launcher configures. */
  predicate Admitted(c: Cache, N: nat) {
    (N == 32 || N == 64 || N == 128) && (c.Paged? ==> c.pageSize > 0 && c.pageSize % 256 == 0)
  }

  /** So in every launch pages hold whole tiles. */
  lemma AdmittedTilesFit(c: Cache, N: nat)
    requires Admitted(c, N)
    ensures TilesFit(c, N) && (c.Paged? ==> forall n: nat :: TileInPage(c.pageSize, N, n))
  {
    if c.Paged? {
      var q := c.pageSize / 256;
      DivMod(c.pageSize, 256);
      assert c.pageSize == q * 256;
      TilesInPages(c.pageSize, N);
    }
  }

  /** The rows of a tile then follow the tile's pointer at the row stride. */
  lemma TileRows(c: Cache, N: nat, n: nat, i: int)
    requires TilesFit(c, N) && 0 <= i < N && c.HasRow(n * N)
    ensures c.HasRow(n * N + i) && c.RowAddress(n * N + i) == c.RowAddress(n * N) + i * c.rowStride
  {
    if c.Paged? {
      SamePage(c.pageSize, N, n, i);
      DistributeAdd((n * N) % c.pageSize, i, c.rowStride);
    } else {
      DistributeAdd(n * N, i, c.rowStride);
    }
  }

  lemma StrideInjective(i: int, j: int, stride: int)
    requires i != j && stride > 0
    ensures i * stride != j * stride
  {
    if i < j {
      MulMono(i + 1, j, stride);
      DistributeAdd(i, 1, stride);
    } else {
      MulMono(j + 1, i, stride);
      DistributeAdd(j, 1, stride);
    }
  }

  lemma InPage(offset: int, P: nat, rowStride: int, batchStride: int)
    requires 0 <= offset < P && rowStride > 0 && batchStride >= P * rowStride
    ensures 0 <= offset * rowStride < batchStride
  {
    MulMono(offset + 1, P, rowStride);
    DistributeAdd(offset, 1, rowStride);
    MulMono(0, offset, rowStride);
  }

  lemma PagesApart(s: int, t: int, batchStride: int, x: int, y: int)
    requires s != t && 0 <= x < batchStride && 0 <= y < batchStride
    ensures s * batchStride + x != t * batchStride + y
  {
    if s < t {
      MulMono(s + 1, t, batchStride);
      DistributeAdd(s, 1, batchStride);
    } else {
      MulMono(t + 1, s, batchStride);
      DistributeAdd(t, 1, batchStride);
    }
  }

  /** Rows are at different addresses if pages are distinct and at least a page apart. */
  lemma AddressesDistinct(c: Cache, i: int, j: int)
    requires c.HasRow(i) && c.HasRow(j) && i != j && c.rowStride > 0
    requires c.Paged? ==> c.batchStride >= c.pageSize * c.rowStride
    requires c.Paged? ==> forall a, b :: 0 <= a < b < |c.table| ==> c.table[a] != c.table[b]
    ensures c.RowAddress(i) != c.RowAddress(j)
  {
    if c.Paged? {
      var P := c.pageSize;
      QuotientBounds(i, P);
      QuotientBounds(j, P);
      DivMod(i, P);
      DivMod(j, P);
      InPage(i % P, P, c.rowStride, c.batchStride);
      InPage(j % P, P, c.rowStride, c.batchStride);
      if i / P == j / P {
        StrideInjective(i % P, j % P, c.rowStride);
      } else {
        var s, t := c.table[i / P], c.table[j / P];
        assert s != t;
        PagesApart(s, t, c.batchStride, (i % P) * c.rowStride, (j % P) * c.rowStride);
      }
    } else {
      StrideInjective(i, j, c.rowStride);
    }
  }

  // ----- The walk

  /** One iteration: the block, whether it is in the masking loop, and the K and V pointers it uses. */
  datatype Visit = Visit(block: int, masking: bool, k: int, v: int)

  /** The `i`-th block from the top, with the addresses that direct lookups give. */
  function DirectVisit(kc: Cache, vc: Cache, N: nat, nMax: int, steps: nat, i: int): Visit
    requires kc.HasTile(N, nMax - 1 - i) && vc.HasTile(N, nMax - 1 - i)
  {
    var n := nMax - 1 - i;
    Visit(n, i < steps, kc.TileAddress(N, n), vc.TileAddress(N, n))
  }

  ghost predicate HasTiles(c: Cache, N: nat, nMin: int, nMax: int) {
    forall n :: nMin <= n < nMax ==> c.HasTile(N, n)
  }

  /** The visits are those of the blocks from the top. */
  ghost predicate Walked(kc: Cache, vc: Cache, N: nat, nMin: int, nMax: int, steps: nat, visits: seq<Visit>)
    requires HasTiles(kc, N, nMin, nMax) && HasTiles(vc, N, nMin, nMax)
  {
    && |visits| <= nMax - nMin
    && forall i :: 0 <= i < |visits| ==> visits[i] == DirectVisit(kc, vc, N, nMax, steps, i)
  }

  /** The K pointer is at block `n`, unless the range is done. */
  ghost predicate AtTile(c: Cache, N: nat, nMin: int, n: int, ptr: int) {
    n >= nMin ==> c.HasTile(N, n) && ptr == c.TileAddress(N, n)
  }

  /** Moves a pointer from block `n` to the block below it. */
  method Move(c: Cache, N: nat, n: int, ptr: int) returns (ptr': int)
    requires c.HasTile(N, n) && c.HasTile(N, n - 1) && ptr == c.TileAddress(N, n)
    ensures ptr' == c.TileAddress(N, n - 1)
  {
    DistributeSub(n, 1, N);
    MovedExact(c, N, n * N, (n - 1) * N);
    ptr' := c.Moved(ptr, N, n * N, (n - 1) * N);
  }

  /** The masking loop with its early exit: it leaves the block and the pointers that the tail loop starts from. */
  method WalkMasking(kc: Cache, vc: Cache, N: nat, nMin: int, nMax: int, steps: nat)
    returns (visits: seq<Visit>, n: int, k: int, v: int)
    requires 0 <= nMin < nMax && steps >= 1 && N > 0
    requires HasTiles(kc, N, nMin, nMax) && HasTiles(vc, N, nMin, nMax)
    ensures nMin - 1 <= n < nMax - 1 && |visits| == nMax - 1 - n && (n >= nMin ==> |visits| >= steps)
    ensures AtTile(kc, N, nMin, n, k) && AtTile(vc, N, nMin, n + 1, v)
    ensures Walked(kc, vc, N, nMin, nMax, steps, visits)
  {
    n := nMax - 1;
    assert kc.HasTile(N, n) && vc.HasTile(N, n);
    StartExact(kc, n * N);
    StartExact(vc, n * N);
    k, v := kc.Start(n * N), vc.Start(n * N);
    visits := [];
    var step := 0;
    while step < steps
      invariant step <= steps && n == nMax - 1 - step && step == |visits|
      invariant nMin - 1 <= n && (n < nMin ==> step == steps)
      invariant AtTile(kc, N, nMin, n, k)
      invariant if step == 0 then v == vc.TileAddress(N, n) else AtTile(vc, N, nMin, n + 1, v)
      invariant Walked(kc, vc, N, nMin, nMax, steps, visits)
    {
      if step > 0 {
        v := Move(vc, N, n + 1, v);
      }
      visits := visits + [Visit(n, true, k, v)];
      if n > nMin {
        k := Move(kc, N, n, k);
      }
      if steps > 1 && n <= nMin {
        n := n - 1;
        break;
      }
      step, n := step + 1, n - 1;
    }
  }

  /**
   The masking loop, then the tail loop. Every block of the range is visited exactly once, in
   descending order, the first `steps` of them in the masking loop, and every block is read where a
   direct lookup of its rows would read it.
   */
  method WalkBlocks(kc: Cache, vc: Cache, N: nat, nMin: int, nMax: int, steps: nat) returns (visits: seq<Visit>)
    requires 0 <= nMin < nMax && steps >= 1 && N > 0
    requires HasTiles(kc, N, nMin, nMax) && HasTiles(vc, N, nMin, nMax)
    ensures |visits| == nMax - nMin && Walked(kc, vc, N, nMin, nMax, steps, visits)
  {
    var n, k, v;
    visits, n, k, v := WalkMasking(kc, vc, N, nMin, nMax, steps);
    while n >= nMin
      invariant nMin - 1 <= n && |visits| == nMax - 1 - n && (n >= nMin ==> |visits| >= steps)
      invariant AtTile(kc, N, nMin, n, k) && AtTile(vc, N, nMin, n + 1, v)
      invariant Walked(kc, vc, N, nMin, nMax, steps, visits)
    {
      v := Move(vc, N, n + 1, v);
      visits := visits + [Visit(n, false, k, v)];
      if n > nMin {
        k := Move(kc, N, n, k);
      }
      n := n - 1;
    }
  }

  /** So every tile that is read holds the rows `n * N` to `n * N + N - 1` of the sequence, in both tensors. */
  lemma VisitReadsRows(kc: Cache, vc: Cache, N: nat, nMin: int, nMax: int, steps: nat, visits: seq<Visit>, i: int,
                       r: int)
    requires 0 <= nMin && HasTiles(kc, N, nMin, nMax) && HasTiles(vc, N, nMin, nMax)
    requires Walked(kc, vc, N, nMin, nMax, steps, visits) && TilesFit(kc, N) && TilesFit(vc, N)
    requires 0 <= i < |visits| && 0 <= r < N
    ensures var j := (nMax - 1 - i) * N + r;
            && kc.HasRow(j) && visits[i].k + r * kc.rowStride == kc.RowAddress(j)
            && vc.HasRow(j) && visits[i].v + r * vc.rowStride == vc.RowAddress(j)
  {
    var n := nMax - 1 - i;
    assert kc.HasTile(N, n) && vc.HasTile(N, n);
    assert visits[i] == DirectVisit(kc, vc, N, nMax, steps, i);
    TileRows(kc, N, n, r);
    TileRows(vc, N, n, r);
  }
}
