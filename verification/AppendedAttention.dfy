/**
 Attention over a cache that is extended while it is read (pod_attn/pod_attn/fused_fwd_kernel.h,
 `Append_KV`): every thread block copies the new rows of its own blocks, synchronises with nobody,
 and reads K and V through pointers that it moves from block to block. Its rows nevertheless get
 the attention over the extended sequence, and so does every output row of a complete run.
 */
module AppendedAttention {
  import opened IntMath
  import opened Floats
  import opened AttentionSpec
  import opened OnlineSoftmax
  import opened MaskSchedule
  import opened Kernel
  import opened SplitAttention
  import opened PagedCache
  import opened AppendCache
  import opened CacheReads
  import opened LaunchCoverage
  import opened FusedLaunch

  /**
   One tensor of one batch entry and KV head: the copies to make, the new rows, the memory before the
   launch, and the extended sequence.
   */
  datatype Tensor = Tensor(job: Job, src: seq<seq<real>>, was: seq<seq<real>>, rows: seq<seq<real>>) {
    ghost predicate Valid(c: Config) {
      job.N == c.N && job.total == c.sk && job.Valid(|was|, |src|) && Extended(job, src, was, rows)
    }

    /** The memory after the rows `js` have been copied. */
    ghost function Memory(js: seq<int>): (mem: seq<seq<real>>)
      requires job.Valid(|was|, |src|) && AllNew(job, js)
      ensures |mem| == |was|
    {
      WriteRows(job, src, was, js)
    }

    /** `js` are copies that can have been made when split `k` of tile `m` reads: its own, and any others. */
    ghost predicate Copied(c: Config, seqlenK: nat, splits: nat, m: nat, k: nat, js: seq<int>)
      requires c.N > 0 && splits > 0
    {
      AllNew(job, js) && forall j :: Copies(c, job.cached, seqlenK, splits, m, k, j) ==> j in js
    }
  }

  /** The two tensors and the queries of one batch entry and head. */
  datatype Entry = Entry(k: Tensor, v: Tensor, q: seq<seq<real>>) {
    /** `x` are the inputs that the extended sequence gives. */
    ghost predicate Gives(c: Config, dot: (seq<real>, seq<real>) -> real, x: Inputs) {
      && k.Valid(c) && v.Valid(c) && |q| == c.sq && x.Valid(c) && x.v == v.rows
      && forall i, j :: 0 <= i < c.sq && 0 <= j < c.sk ==> x.s[i][j] == dot(q[i], k.rows[j])
    }
  }

  // ----- The rows of a tile depend only on the keys of its split

  /** Two inputs have the same value row and the same scores for key `j`. */
  ghost predicate SameKey(c: Config, x: Inputs, y: Inputs, j: int)
    requires x.Valid(c) && y.Valid(c) && 0 <= j < c.sk
  {
    x.v[j] == y.v[j] && forall i :: 0 <= i < c.sq ==> x.s[i][j] == y.s[i][j]
  }

  /** Two inputs agree on the keys of `keys`. */
  ghost predicate SameInputs(c: Config, x: Inputs, y: Inputs, keys: Span) {
    && x.Valid(c) && y.Valid(c) && x.cols == y.cols
    && forall j :: keys.lo <= j < keys.hi && 0 <= j < c.sk ==> SameKey(c, x, y, j)
  }

  lemma SameInputsAgree(l: SplitLaunch, y: Inputs, keys: Span, i: nat)
    requires l.Valid() && l.(x := y).Valid() && SameInputs(l.c, l.x, y, keys) && i < l.c.sq
    ensures SameBetween(l.(x := y).MaskedRow(i), l.MaskedRow(i), keys.lo, keys.hi)
    ensures SameValues(y.v, l.x.v, keys.lo, keys.hi)
  {
    var a, b := l.(x := y).MaskedRow(i), l.MaskedRow(i);
    assert a.vis == b.vis;
    forall j | keys.lo <= j < keys.hi && 0 <= j < l.c.sk
      ensures y.v[j] == l.x.v[j] && a.s[j] == b.s[j]
    {
      assert SameKey(l.c, l.x, y, j);
    }
  }

  lemma SplitDoneAgrees(sc: Scaling, l: SplitLaunch, y: Inputs, k: nat, none: F, o: seq<seq<F>>, lse: seq<F>)
    requires l.Valid() && SameInputs(l.c, l.x, y, l.SplitKeys(k)) && SplitDone(sc, l.(x := y), k, none, o, lse)
    ensures SplitDone(sc, l, k, none, o, lse)
  {
    var l', keys := l.(x := y), l.SplitKeys(k);
    forall r | 0 <= r < l.c.M && l.row + r < l.c.sq
      ensures l.SplitRow(sc, l.row + r, k, none, RowResult(o[r], lse[r]))
    {
      var i := l.row + r;
      assert l'.SplitKeys(k) == keys;
      assert l'.SplitRow(sc, i, k, none, RowResult(o[r], lse[r]));
      SameInputsAgree(l, y, keys, i);
      RowAgrees(sc, l'.MaskedRow(i), l.MaskedRow(i), y.v, l.x.v, l.x.cols, keys, none,
                Spoilt(sc.scale, l.c.N, none), RowResult(o[r], lse[r]));
    }
  }

  // ----- What a split reads is the extended sequence

  /**
   The reading of split `k` of tile `m`: `x` are the inputs it computes with, taken through the
   pointers of `visits`; `seenK` and `seenV` are the copies that had been made when it read a key.
   */
  datatype TileRead = TileRead(x: Inputs, steps: nat, visits: seq<Visit>, seenK: int -> seq<int>,
                               seenV: int -> seq<int>)
  {
    /** The walk over the split's blocks and its pointers. */
    function Walk(c: Config, e: Entry, seqlenK: nat, splits: nat, m: nat, k: nat): Reading
      requires c.N > 0 && splits > 0
    {
      Reading(c, e.k.job.c, e.v.job.c, c.SplitMin(m, seqlenK, splits, k), c.SplitMax(m, seqlenK, splits, k), steps,
              visits)
    }

    /** Key `j` was read where the pointers were, at a time when the split's own copies had been made. */
    ghost predicate ReadsKey(c: Config, e: Entry, dot: (seq<real>, seq<real>) -> real, seqlenK: nat, splits: nat,
                             m: nat, k: nat, j: nat)
      requires c.Valid() && splits > 0 && x.Valid(c) && e.k.Valid(c) && e.v.Valid(c) && |e.q| == c.sq && j < c.sk
    {
      var w := Walk(c, e, seqlenK, splits, m, k);
      && w.HasPointer(j)
      && e.k.Copied(c, seqlenK, splits, m, k, seenK(j)) && e.v.Copied(c, seqlenK, splits, m, k, seenV(j))
      && 0 <= w.KeyPointer(j) < |e.k.was| && 0 <= w.ValuePointer(j) < |e.v.was|
      && x.v[j] == e.v.Memory(seenV(j))[w.ValuePointer(j)]
      && forall i :: 0 <= i < c.sq ==> x.s[i][j] == dot(e.q[i], e.k.Memory(seenK(j))[w.KeyPointer(j)])
    }

    /** The split's walk read all its keys so. */
    ghost predicate Reads(c: Config, e: Entry, dot: (seq<real>, seq<real>) -> real, seqlenK: nat, splits: nat, m: nat,
                          k: nat)
      requires c.Valid() && splits > 0
    {
      var w := Walk(c, e, seqlenK, splits, m, k);
      && x.Valid(c) && e.k.Valid(c) && e.v.Valid(c) && |e.q| == c.sq
      && (w.nMin < w.nMax ==> w.Valid() && |visits| == w.nMax - w.nMin)
      && forall j: nat :: j < c.sk && w.nMin * c.N <= j < w.nMax * c.N ==> ReadsKey(c, e, dot, seqlenK, splits, m, k, j)
    }
  }

  /** One key that a split reads is that key of the extended sequence. */
  lemma ReadsExtendedKey(c: Config, e: Entry, dot: (seq<real>, seq<real>) -> real, x: Inputs, seqlenK: nat, splits: nat,
                         m: nat, k: nat, read: TileRead, j: nat)
    requires c.Valid() && splits > 0 && m * c.M < c.sq && k < splits && e.Gives(c, dot, x)
    requires read.Reads(c, e, dot, seqlenK, splits, m, k) && j < c.sk
    requires c.SplitMin(m, seqlenK, splits, k) * c.N <= j < c.SplitMax(m, seqlenK, splits, k) * c.N
    ensures SameKey(c, x, read.x, j)
  {
    var w := read.Walk(c, e, seqlenK, splits, m, k);
    BlockOfKey(j, c.N, w.nMin, w.nMax);
    assert read.ReadsKey(c, e, dot, seqlenK, splits, m, k, j);
    w.PointersExact(j);
    SplitStoresExtended(c, e.k.job, seqlenK, splits, m, k, e.k.src, e.k.was, read.seenK(j), e.k.rows);
    SplitStoresExtended(c, e.v.job, seqlenK, splits, m, k, e.v.src, e.v.was, read.seenV(j), e.v.rows);
  }

  lemma KeyOfSplit(l: SplitLaunch, k: nat, j: int)
    requires l.Valid() && l.KeyCut(k) <= j < l.KeyCut(k + 1)
    ensures l.c.SplitMin(l.m, l.seqlenK, l.splits, k) * l.c.N <= j < l.c.SplitMax(l.m, l.seqlenK, l.splits, k) * l.c.N
  {
    SplitBetweenCuts(l.c, l.m, l.seqlenK, l.splits, k);
  }

  /** So what a split computes with is the extended sequence, on all its keys. */
  lemma SplitReadsExtended(c: Config, e: Entry, dot: (seq<real>, seq<real>) -> real, l: SplitLaunch, k: nat,
                           read: TileRead)
    requires l.Valid() && c == l.c && l.m * c.M < c.sq && k < l.splits && e.Gives(c, dot, l.x)
    requires read.Reads(c, e, dot, l.seqlenK, l.splits, l.m, k) && read.x.cols == l.x.cols
    ensures SameInputs(c, l.x, read.x, l.SplitKeys(k))
  {
    forall j | l.KeyCut(k) <= j < l.KeyCut(k + 1) && 0 <= j < c.sk
      ensures SameKey(c, l.x, read.x, j)
    {
      KeyOfSplit(l, k, j);
      ReadsExtendedKey(c, e, dot, l.x, l.seqlenK, l.splits, l.m, k, read, j);
    }
  }

  // ----- One thread block

  /** The blocks of a split have addresses in the extended cache. */
  lemma TilesExist(c: Config, t: Tensor, nMin: int, nMax: int)
    requires c.Valid() && t.Valid(c) && 0 <= nMin && nMax <= CeilDiv(c.sk, c.N)
    ensures HasTiles(t.job.c, c.N, nMin, nMax)
  {
    CeilDivBounds(c.sk, c.N);
    forall n | nMin <= n < nMax
      ensures t.job.c.HasTile(c.N, n)
    {
      MulMono(0, n, c.N);
      MulMono(n, CeilDiv(c.sk, c.N) - 1, c.N);
    }
  }

  /** Every key of the walk is in its range of addresses. */
  ghost predicate Reachable(c: Config, w: Reading, ksize: nat, vsize: nat) {
    forall j :: 0 <= j < c.sk && w.HasPointer(j) ==> 0 <= w.KeyPointer(j) < ksize && 0 <= w.ValuePointer(j) < vsize
  }

  /** What the loads of a walk bring in: scores and value rows of the keys of its blocks. */
  function LoadTile(c: Config, w: Reading, kmem: seq<seq<real>>, vmem: seq<seq<real>>, q: seq<seq<real>>,
                    dot: (seq<real>, seq<real>) -> real, cols: nat, junk: (int, int) -> F): Inputs
    requires |q| == c.sq && Reachable(c, w, |kmem|, |vmem|)
  {
    Inputs(seq(c.sq, i requires 0 <= i < c.sq =>
             seq(c.sk, j requires 0 <= j < c.sk => if w.HasPointer(j) then dot(q[i], kmem[w.KeyPointer(j)]) else 0.0)),
           seq(c.sk, j requires 0 <= j < c.sk =>
             if w.HasPointer(j) then vmem[w.ValuePointer(j)] else seq(cols, _ => 0.0)),
           cols, junk)
  }

  /** The pointers of a split's walk are within the cache. */
  lemma WalkReachable(c: Config, e: Entry, dot: (seq<real>, seq<real>) -> real, x: Inputs, w: Reading)
    requires c.Valid() && e.Gives(c, dot, x) && w.c == c && w.kc == e.k.job.c && w.vc == e.v.job.c && w.Valid()
    ensures Reachable(c, w, |e.k.was|, |e.v.was|)
  {
    forall j | 0 <= j < c.sk && w.HasPointer(j)
      ensures 0 <= w.KeyPointer(j) < |e.k.was| && 0 <= w.ValuePointer(j) < |e.v.was|
    {
      w.PointersExact(j);
    }
  }

  /** A row that a split's walk loads has the columns of the extended sequence. */
  lemma LoadedShape(c: Config, e: Entry, dot: (seq<real>, seq<real>) -> real, x: Inputs, seqlenK: nat, splits: nat,
                    m: nat, k: nat, w: Reading, jsV: seq<int>, j: nat)
    requires c.Valid() && splits > 0 && m * c.M < c.sq && k < splits && e.Gives(c, dot, x)
    requires w.c == c && w.kc == e.k.job.c && w.vc == e.v.job.c && w.Valid()
    requires w.nMin == c.SplitMin(m, seqlenK, splits, k) && w.nMax == c.SplitMax(m, seqlenK, splits, k)
    requires e.v.Copied(c, seqlenK, splits, m, k, jsV) && j < c.sk && w.HasPointer(j)
    ensures 0 <= w.ValuePointer(j) < |e.v.was| && |e.v.Memory(jsV)[w.ValuePointer(j)]| == x.cols
  {
    w.PointersExact(j);
    BlockOfKey(j, c.N, w.nMin, w.nMax);
    SplitStoresExtended(c, e.v.job, seqlenK, splits, m, k, e.v.src, e.v.was, jsV, e.v.rows);
  }

  /** The loads of a split, made when the copies `jsK` and `jsV` have been made, are a reading of it. */
  lemma LoadedReads(c: Config, e: Entry, dot: (seq<real>, seq<real>) -> real, x: Inputs, seqlenK: nat, splits: nat,
                    m: nat, k: nat, w: Reading, jsK: seq<int>, jsV: seq<int>, read: TileRead)
    requires c.Valid() && splits > 0 && m * c.M < c.sq && k < splits && e.Gives(c, dot, x)
    requires w.c == c && w.kc == e.k.job.c && w.vc == e.v.job.c && w.Valid() && |w.visits| == w.nMax - w.nMin
    requires w.nMin == c.SplitMin(m, seqlenK, splits, k) && w.nMax == c.SplitMax(m, seqlenK, splits, k)
    requires e.k.Copied(c, seqlenK, splits, m, k, jsK) && e.v.Copied(c, seqlenK, splits, m, k, jsV)
    requires Reachable(c, w, |e.k.was|, |e.v.was|)
    requires read == TileRead(LoadTile(c, w, e.k.Memory(jsK), e.v.Memory(jsV), e.q, dot, x.cols, x.junk), w.steps,
                              w.visits, _ => jsK, _ => jsV)
    ensures read.Reads(c, e, dot, seqlenK, splits, m, k)
  {
    assert read.Walk(c, e, seqlenK, splits, m, k) == w;
    forall j: nat | j < c.sk
      ensures |read.x.v[j]| == x.cols
    {
      if w.HasPointer(j) {
        LoadedShape(c, e, dot, x, seqlenK, splits, m, k, w, jsV, j);
      }
    }
    assert read.x.Valid(c);
    forall j: nat | j < c.sk && w.nMin * c.N <= j < w.nMax * c.N
      ensures read.ReadsKey(c, e, dot, seqlenK, splits, m, k, j)
    {
      BlockOfKey(j, c.N, w.nMin, w.nMax);
    }
  }

  /** Copying the rows of a split on top of what others have copied leaves the split's own copies made. */
  lemma CopiedMore(c: Config, t: Tensor, seqlenK: nat, splits: nat, m: nat, k: nat, js: seq<int>, rows: seq<int>)
    requires c.N > 0 && splits > 0 && t.job.Valid(|t.was|, |t.src|) && AllNew(t.job, js) && AllNew(t.job, rows)
    requires forall j :: j in rows <==> Copies(c, t.job.cached, seqlenK, splits, m, k, j)
    ensures t.Copied(c, seqlenK, splits, m, k, js + rows)
    ensures t.Memory(js + rows) == WriteRows(t.job, t.src, t.Memory(js), rows)
  {
    WriteMore(t.job, t.src, t.was, js, rows);
  }

  /** The copies of one thread block for one tensor, after which its part of the memory is up to date. */
  method AppendTensor(c: Config, t: Tensor, mem: array<seq<real>>, seqlenK: nat, splits: nat, m: nat, k: nat,
                      ghost js: seq<int>) returns (ghost js': seq<int>)
    requires c.Valid() && splits > 0 && m * c.M < c.sq && k < splits && t.Valid(c)
    requires AllNew(t.job, js) && mem[..] == t.Memory(js)
    modifies mem
    ensures t.Copied(c, seqlenK, splits, m, k, js') && mem[..] == t.Memory(js') && js <= js'
  {
    MulMono(0, k, c.BlocksPerSplit(seqlenK, splits));
    TilesExist(c, t, c.SplitMin(m, seqlenK, splits, k), c.SplitMax(m, seqlenK, splits, k));
    ghost var rows := AppendSplit(c, t.job, t.src, mem, seqlenK, splits, m, k);
    CopiedMore(c, t, seqlenK, splits, m, k, js, rows);
    js' := js + rows;
  }

  /** The pointer walk of a split that has blocks, and what it loads. */
  method ReadTile(c: Config, e: Entry, dot: (seq<real>, seq<real>) -> real, cols: nat, junk: (int, int) -> F,
                  kmem: seq<seq<real>>, vmem: seq<seq<real>>, seqlenK: nat, splits: nat, m: nat, k: nat,
                  ghost x: Inputs, ghost jsK: seq<int>, ghost jsV: seq<int>)
    returns (y: Inputs, ghost read: TileRead)
    requires c.Valid() && splits > 0 && m * c.M < c.sq && k < splits
    requires e.Gives(c, dot, x) && cols == x.cols && junk == x.junk
    requires e.k.Copied(c, seqlenK, splits, m, k, jsK) && e.v.Copied(c, seqlenK, splits, m, k, jsV)
    requires kmem == e.k.Memory(jsK) && vmem == e.v.Memory(jsV)
    requires c.SplitMin(m, seqlenK, splits, k) < c.SplitMax(m, seqlenK, splits, k)
    ensures y == read.x && y.cols == cols && read.Reads(c, e, dot, seqlenK, splits, m, k)
  {
    var nMin, nMax, steps := c.SplitMin(m, seqlenK, splits, k), c.SplitMax(m, seqlenK, splits, k), c.MaskingSteps();
    MulMono(0, k, c.BlocksPerSplit(seqlenK, splits));
    CeilDivBounds(c.M, c.N);
    TilesExist(c, e.k, nMin, nMax);
    TilesExist(c, e.v, nMin, nMax);
    var visits := WalkBlocks(e.k.job.c, e.v.job.c, c.N, nMin, nMax, steps);
    var w := Reading(c, e.k.job.c, e.v.job.c, nMin, nMax, steps, visits);
    WalkReachable(c, e, dot, x, w);
    y := LoadTile(c, w, kmem, vmem, e.q, dot, cols, junk);
    read := TileRead(y, steps, visits, _ => jsK, _ => jsV);
    LoadedReads(c, e, dot, x, seqlenK, splits, m, k, w, jsK, jsV, read);
  }

  /**
   `compute_attn_1rowblock_splitkv` with `Append_KV` for split `k` of tile `m`: it finds the rows `jsK`
   and `jsV` copied by others, copies its own, and leaves every existing row with its attention over
   the split's keys of the extended sequence, which gives the inputs `x`.
   */
  method AppendAndAttend(sc: Scaling, c: Config, e: Entry, dot: (seq<real>, seq<real>) -> real, cols: nat,
                         junk: (int, int) -> F, kmem: array<seq<real>>, vmem: array<seq<real>>, seqlenK: nat,
                         splits: nat, m: nat, k: nat, split: bool, ghost x: Inputs, ghost jsK: seq<int>,
                         ghost jsV: seq<int>)
    returns (o: seq<seq<F>>, lse: seq<F>, ghost jsK': seq<int>, ghost jsV': seq<int>)
    requires sc.t.Lawful() && c.Valid() && splits > 0 && m * c.M < c.sq && k < splits && kmem != vmem
    requires e.Gives(c, dot, x) && cols == x.cols && junk == x.junk
    requires AllNew(e.k.job, jsK) && kmem[..] == e.k.Memory(jsK)
    requires AllNew(e.v.job, jsV) && vmem[..] == e.v.Memory(jsV)
    modifies kmem, vmem
    ensures SplitDone(sc, SplitLaunch(c, x, m, m * c.M, seqlenK, splits), k, NoKeys(split), o, lse)
    ensures e.k.Copied(c, seqlenK, splits, m, k, jsK') && kmem[..] == e.k.Memory(jsK') && jsK <= jsK'
    ensures e.v.Copied(c, seqlenK, splits, m, k, jsV') && vmem[..] == e.v.Memory(jsV') && jsV <= jsV'
  {
    jsV' := AppendTensor(c, e.v, vmem, seqlenK, splits, m, k, jsV);
    jsK' := AppendTensor(c, e.k, kmem, seqlenK, splits, m, k, jsK);
    ghost var l := SplitLaunch(c, x, m, m * c.M, seqlenK, splits);
    if c.SplitMin(m, seqlenK, splits, k) < c.SplitMax(m, seqlenK, splits, k) {
      var y: Inputs;
      ghost var read;
      y, read := ReadTile(c, e, dot, cols, junk, kmem[..], vmem[..], seqlenK, splits, m, k, x, jsK', jsV');
      o, lse := SplitTile(sc, SplitLaunch(c, y, m, m * c.M, seqlenK, splits), k, split);
      SplitReadsExtended(c, e, dot, l, k, read);
      assert l.(x := y) == SplitLaunch(c, y, m, m * c.M, seqlenK, splits);
      SplitDoneAgrees(sc, l, y, k, NoKeys(split), o, lse);
    } else {
      o, lse := seq(c.M, _ => seq(cols, _ => Fin(0.0))), seq(c.M, _ => NoKeys(split));
      EmptySplitDone(sc, l, k, NoKeys(split), o, lse);
    }
  }

  // ----- The whole run

  /** The caches of an operation that appends: one entry for every batch entry and head. */
  ghost predicate Appends(o: Operation, entries: seq<seq<Entry>>, dot: (seq<real>, seq<real>) -> real) {
    && o.Valid() && o.useSplit && |entries| == |o.configs|
    && forall b: nat, h: nat :: b < |o.configs| && h < o.heads && o.EntryValid(b) ==>
      h < |entries[b]| && entries[b][h].Gives(o.configs[b], dot, o.inputs[b][h])
  }

  /** A share that read the cache as `read` says and computed its tile from what it read. */
  ghost predicate ShareReads(sc: Scaling, o: Operation, e: Entry, dot: (seq<real>, seq<real>) -> real, t: Tile,
                             read: TileRead, res: TileResult)
    requires o.Valid() && t.batch < |o.configs| && t.head < o.heads && o.EntryValid(t.batch)
  {
    var l := o.LaunchOf(t.batch, t.head, t.mBlock);
    && read.Reads(l.c, e, dot, o.seqlenK, o.splits, t.mBlock, t.split) && read.x.cols == l.x.cols
    && SplitDone(sc, l.(x := read.x), t.split, NoKeys(o.splits > 1), res.o, res.lse)
  }

  /** Such a share has done its tile for the extended sequence. */
  lemma AppendedTileDone(sc: Scaling, o: Operation, entries: seq<seq<Entry>>, dot: (seq<real>, seq<real>) -> real,
                         t: Tile, read: TileRead, res: TileResult)
    requires Appends(o, entries, dot) && t.batch < |o.configs| && t.head < o.heads && o.EntryValid(t.batch)
    requires t.head < |entries[t.batch]| && t.mBlock * o.M < o.seqlenQ && t.split < o.splits
    requires ShareReads(sc, o, entries[t.batch][t.head], dot, t, read, res)
    ensures o.TileDone(sc, t, res)
  {
    var l := o.LaunchOf(t.batch, t.head, t.mBlock);
    SplitReadsExtended(l.c, entries[t.batch][t.head], dot, l, t.split, read);
    SplitDoneAgrees(sc, l, read.x, t.split, NoKeys(o.splits > 1), res.o, res.lse);
    SplitTileDone(sc, o, t, l, res);
  }

  /** Every share of a run read the cache and computed its tile from what it read. */
  ghost predicate AllShareReads(sc: Scaling, o: Operation, entries: seq<seq<Entry>>,
                                dot: (seq<real>, seq<real>) -> real, run: Outcome, readBy: Worker -> TileRead)
    requires Appends(o, entries, dot) && o.TileGrid().Valid()
  {
    forall w, t :: Computes(o.TileGrid(), run.op, run.log, w, t) && o.TileGrid().Has(t) && o.EntryValid(t.batch) ==>
      && w in run.results && t.head < |entries[t.batch]|
      && ShareReads(sc, o, entries[t.batch][t.head], dot, t, readBy(w), run.results[w])
  }

  /** Every tile of the grid has an existing row. */
  lemma TileHasRow(o: Operation, t: Tile)
    requires o.Valid() && o.TileGrid().Has(t)
    ensures t.mBlock * o.M < o.seqlenQ
  {
    QuotientBounds(o.seqlenQ + o.M - 1, o.M);
    MulMono(t.mBlock + 1, o.MBlocks(), o.M);
    DistributeAdd(t.mBlock, 1, o.M);
  }

  lemma AppendedRunComputed(sc: Scaling, o: Operation, entries: seq<seq<Entry>>, dot: (seq<real>, seq<real>) -> real,
                            run: Outcome, readBy: Worker -> TileRead)
    requires Appends(o, entries, dot) && o.TileGrid().Valid() && AllShareReads(sc, o, entries, dot, run, readBy)
    ensures run.Computed(sc, o)
  {
    forall w, t | Computes(o.TileGrid(), run.op, run.log, w, t) && o.TileGrid().Has(t)
      ensures w in run.results && o.TileDone(sc, t, run.results[w])
    {
      assert o.EntryValid(t.batch);
      TileHasRow(o, t);
      AppendedTileDone(sc, o, entries, dot, t, readBy(w), run.results[w]);
    }
  }

  /**
   In every complete run of a launch that appends, every output row is the attention of its query over
   the extended sequence, although each share read the cache on its own, through moved pointers, while
   others were still copying.
   */
  lemma AppendedOutput(sc: Scaling, f: Fused, entries: seq<seq<Entry>>, dot: (seq<real>, seq<real>) -> real,
                       run: Outcome, readBy: Worker -> TileRead, batch: nat, head: nat, i: nat, out: RowResult)
    requires sc.t.Lawful() && f.Valid() && run.log == f.Log()
    requires var o := f.Chosen(run.op);
             && Appends(o, entries, dot) && o.TileGrid().Valid() && AllShareReads(sc, o, entries, dot, run, readBy)
             && run.AllSettled(o) && o.HasRow(batch, head, i) && o.EntryValid(batch)
             && OutputRow(sc, o, run.mem, batch, head, i, out)
    ensures f.Chosen(run.op).RowDocumented(sc, batch, head, i, out)
  {
    AppendedRunComputed(sc, f.Chosen(run.op), entries, dot, run, readBy);
    OutputIsAttention(sc, f, run, batch, head, i, out);
  }
}
