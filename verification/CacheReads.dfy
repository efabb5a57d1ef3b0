/**
 The kernel computes with what its walk reads (pod_attn/pod_attn/fused_fwd_kernel.h): the tiles of
 K and V that the pointers reach are those of the sequence, and, when rows are appended, those of
 the extended sequence, whatever the other thread blocks have copied by then. An address holds a
 whole row.
 */
module CacheReads {
  import opened IntMath
  import opened Floats
  import opened AttentionSpec
  import opened MaskSchedule
  import opened Kernel
  import opened PagedCache
  import opened AppendCache

  /** The memory holds the rows of a sequence where the cache says, for the keys in `[lo, hi)`. */
  ghost predicate Stores(c: Cache, mem: seq<seq<real>>, lo: int, hi: int, rows: seq<seq<real>>) {
    forall j :: lo <= j < hi && 0 <= j < |rows| ==>
      c.HasRow(j) && 0 <= c.RowAddress(j) < |mem| && mem[c.RowAddress(j)] == rows[j]
  }

  /** A walk over the blocks `[nMin, nMax)` with the pointers that it used. */
  datatype Reading = Reading(c: Config, kc: Cache, vc: Cache, nMin: int, nMax: int, steps: nat, visits: seq<Visit>) {
    ghost predicate Valid() {
      && c.Valid() && 0 <= nMin && TilesFit(kc, c.N) && TilesFit(vc, c.N)
      && HasTiles(kc, c.N, nMin, nMax) && HasTiles(vc, c.N, nMin, nMax)
      && Walked(kc, vc, c.N, nMin, nMax, steps, visits)
    }

    /** The first key of the `i`-th visit. */
    function Col(i: nat): int {
      (nMax - 1 - i) * c.N
    }

    lemma KeyInRange(i: nat, r: nat)
      requires Valid() && i < |visits| && r < c.N
      ensures 0 <= Col(i) && nMin * c.N <= Col(i) + r < nMax * c.N
    {
      var n := nMax - 1 - i;
      MulMono(0, n, c.N);
      MulMono(nMin, n, c.N);
      MulMono(n + 1, nMax, c.N);
      DistributeAdd(n, 1, c.N);
    }

    /** Key `j` lies in a block that was visited. */
    predicate HasPointer(j: int) {
      c.N > 0 && nMin <= j / c.N < nMax && |visits| == nMax - nMin
    }

    /** Where the walk reads the K row of key `j`: from the pointer of its block on. */
    function KeyPointer(j: int): int
      requires HasPointer(j)
    {
      visits[nMax - 1 - j / c.N].k + (j % c.N) * kc.rowStride
    }

    function ValuePointer(j: int): int
      requires HasPointer(j)
    {
      visits[nMax - 1 - j / c.N].v + (j % c.N) * vc.rowStride
    }

    /** Both are where a direct lookup finds the key. */
    lemma PointersExact(j: int)
      requires Valid() && HasPointer(j)
      ensures kc.HasRow(j) && KeyPointer(j) == kc.RowAddress(j)
      ensures vc.HasRow(j) && ValuePointer(j) == vc.RowAddress(j)
    {
      DivMod(j, c.N);
      VisitReadsRows(kc, vc, c.N, nMin, nMax, steps, visits, nMax - 1 - j / c.N, j % c.N);
    }

    /** The rows of a value tile are those stored from the V pointer on, and zero past the last key. */
    lemma LoadsValues(x: Inputs, mem: seq<seq<real>>, i: nat, predicated: bool, r: nat)
      requires Valid() && x.Valid(c) && i < |visits| && r < c.N && Stores(vc, mem, nMin * c.N, nMax * c.N, x.v)
      requires Col(i) >= 0 && (!predicated ==> Col(i) + c.N <= c.sk)
      ensures var row, a := LoadV(c, x, Col(i), predicated)[r], visits[i].v + r * vc.rowStride;
              if Col(i) + r < c.sk then 0 <= a < |mem| && row == mem[a] else row == seq(x.cols, _ => 0.0)
    {
      KeyInRange(i, r);
      VisitReadsRows(kc, vc, c.N, nMin, nMax, steps, visits, i, r);
    }

    /** The scores of a tile are those against the rows stored from the K pointer on. */
    lemma LoadsScores(x: Inputs, mem: seq<seq<real>>, keys: seq<seq<real>>, q: seq<seq<real>>,
                      dot: (seq<real>, seq<real>) -> real, i: nat, predicated: bool, query: nat, r: nat)
      requires Valid() && x.Valid(c) && i < |visits| && r < c.N && Stores(kc, mem, nMin * c.N, nMax * c.N, keys)
      requires Col(i) >= 0 && (!predicated ==> Col(i) + c.N <= c.sk)
      requires |keys| == c.sk && |q| == c.sq && query < c.sq && Col(i) + r < c.sk
      requires forall j :: 0 <= j < c.sk ==> x.s[query][j] == dot(q[query], keys[j])
      ensures var a := visits[i].k + r * kc.rowStride;
              0 <= a < |mem| && LoadScores(c, x, query, Col(i), predicated)[r] == Fin(dot(q[query], mem[a]))
    {
      KeyInRange(i, r);
      VisitReadsRows(kc, vc, c.N, nMin, nMax, steps, visits, i, r);
    }
  }

  // ----- With appended rows

  /** `rows` is the sequence in the cache followed by the new rows. */
  ghost predicate Extended(job: Job, src: seq<seq<real>>, was: seq<seq<real>>, rows: seq<seq<real>>) {
    && |rows| == job.total
    && (forall j :: 0 <= j < job.total ==> job.c.HasRow(j) && 0 <= job.c.RowAddress(j) < |was|)
    && (forall j :: 0 <= j < job.total && j < job.cached ==> rows[j] == was[job.c.RowAddress(j)])
    && (forall j :: job.New(j) ==> job.RowFits(j, |was|, |src|) && rows[j] == src[job.Source(j)])
  }

  /**
   When a thread block reads, its split's part of the memory stores the extended sequence, as soon
   as its own copies are done, whatever rows `js` have been copied besides and in whatever order.
   */
  lemma SplitStoresExtended(c: Config, job: Job, seqlenK: nat, splits: nat, m: nat, i: nat, src: seq<seq<real>>,
                            was: seq<seq<real>>, js: seq<int>, rows: seq<seq<real>>)
    requires c.Valid() && splits > 0 && m * c.M < c.sq && i < splits && job.N == c.N && job.total == c.sk
    requires job.Valid(|was|, |src|) && AllNew(job, js) && Extended(job, src, was, rows)
    requires forall j :: Copies(c, job.cached, seqlenK, splits, m, i, j) ==> j in js
    ensures Stores(job.c, WriteRows(job, src, was, js), c.SplitMin(m, seqlenK, splits, i) * c.N,
                   c.SplitMax(m, seqlenK, splits, i) * c.N, rows)
  {
    var nMin, nMax := c.SplitMin(m, seqlenK, splits, i), c.SplitMax(m, seqlenK, splits, i);
    var lo, hi := nMin * c.N, nMax * c.N;
    forall j | job.New(j) && lo <= j < hi
      ensures j in js
    {
      BlockOfKey(j, c.N, nMin, nMax);
      assert Copies(c, job.cached, seqlenK, splits, m, i, j);
    }
    forall j | lo <= j < hi && 0 <= j < |rows|
      ensures job.c.HasRow(j) && 0 <= job.c.RowAddress(j) < |was|
      ensures WriteRows(job, src, was, js)[job.c.RowAddress(j)] == rows[j]
    {
      ReadsExtended(job, src, was, js, lo, hi, j);
    }
  }
}
