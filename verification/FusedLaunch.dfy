/**
 The whole fused launch (pod_attn/pod_attn/fused_fwd_kernel.h,
 pod_attn/pod_attn/fused_fwd_launch_template.h): thread blocks claim slots of a prefill and a decode
 operation, each computes its tiles and writes its rows, and the splits of an operation are
 combined. In every complete run every output row of both operations is the attention that the
 call asked for.
 */
module FusedLaunch {
  import opened IntMath
  import opened Floats
  import opened AttentionSpec
  import Allreduce
  import opened OnlineSoftmax
  import opened MaskSchedule
  import opened Kernel
  import opened Combine
  import opened SplitAttention
  import opened Scheduler
  import opened LaunchCoverage

  /** The rows that one share of a thread block computes. */
  datatype TileResult = TileResult(o: seq<seq<F>>, lse: seq<F>)

  /**
   One operation of a launch: the configuration of every batch entry and the inputs of its heads,
   tiles of `M` rows, the number of splits, the logical blocks per thread block, and which of the
   two kernels it uses.
   */
  datatype Operation = Operation(configs: seq<Config>, inputs: seq<seq<Inputs>>, M: nat, heads: nat, seqlenQ: nat,
                                 seqlenK: nat, splits: nat, factor: nat, useSplit: bool)
  {
    ghost predicate EntryValid(b: nat)
      requires b < |configs| == |inputs|
    {
      var c := configs[b];
      && c.Valid() && c.M == M && c.sq == seqlenQ && c.sk <= seqlenK && c.Fits() && (useSplit || Walkable(c))
      && |inputs[b]| == heads
      && forall h :: 0 <= h < heads ==> inputs[b][h].Valid(c)
    }

    ghost predicate Valid() {
      && M > 0 && heads > 0 && seqlenQ > 0 && splits > 0 && factor > 0 && configs != [] && |inputs| == |configs|
      && (!useSplit ==> splits == 1)
      && forall b :: 0 <= b < |configs| ==> EntryValid(b)
    }

    function MBlocks(): nat
      requires M > 0
    {
      CeilNat(seqlenQ, M)
    }

    function TileGrid(): Grid
      requires M > 0
    {
      Grid(MBlocks(), splits, |configs|, heads, factor)
    }

    /** There is such a row. */
    predicate HasRow(batch: nat, head: nat, i: nat) {
      batch < |configs| && head < heads && i < seqlenQ
    }

    /** Query `i` is a row of query tile `i / M`. */
    lemma RowPlace(i: nat)
      requires M > 0 && i < seqlenQ
      ensures 0 <= i / M < MBlocks() && (i / M) * M + i % M == i && i % M < M
    {
      QuotientBounds(i, M);
      DivMod(i, M);
      QuotientBounds(seqlenQ + M - 1, M);
      DistributeAdd(MBlocks(), 1, M);
      if i / M >= MBlocks() {
        MulMono(MBlocks(), i / M, M);
      }
    }

    ghost function LaunchOf(batch: nat, head: nat, m: nat): SplitLaunch
      requires batch < |configs| == |inputs| && head < |inputs[batch]|
    {
      SplitLaunch(configs[batch], inputs[batch][head], m, m * M, seqlenK, splits)
    }

    /** What the kernel leaves in row `i` when it computes tile `t`. */
    ghost predicate RowDone(sc: Scaling, t: Tile, i: nat, row: RowResult)
      requires Valid() && HasRow(t.batch, t.head, i)
    {
      assert EntryValid(t.batch);
      var c, x, l := configs[t.batch], inputs[t.batch][t.head], LaunchOf(t.batch, t.head, t.mBlock);
      if useSplit then
        l.SplitRow(sc, i, t.split, NoKeys(splits > 1), row)
      else
        RowAttends(sc, RowOf(c, x, i), x.v, x.cols, TileKeys(c, t.mBlock), Span(0, c.sk), PosInf, PosInf, row)
    }

    /** Every existing row of the tile is done. */
    ghost predicate TileDone(sc: Scaling, t: Tile, res: TileResult)
      requires Valid() && t.batch < |configs| && t.head < heads
    {
      && |res.o| == |res.lse| == M
      && forall r :: 0 <= r < M && t.mBlock * M + r < seqlenQ ==>
        RowDone(sc, t, t.mBlock * M + r, RowResult(res.o[r], res.lse[r]))
    }

    /** The place of a row in the buffers that a split writes to. */
    function Place(split: nat, batch: nat, head: nat, i: nat): nat {
      PartialOffset(|configs|, heads, seqlenQ, split, batch, head, i)
    }

    /** The number of rows, which is the size of one split's buffer. */
    function Rows(): nat {
      |configs| * heads * seqlenQ
    }

    /**
     What the launch owes row `i`: its attention over all keys, with the mask of `row`, unless a key of
     its tile's blocks is masked and the scale is not positive.
     */
    ghost predicate RowServed(sc: Scaling, batch: nat, head: nat, i: nat, row: Row, out: RowResult)
      requires Valid() && HasRow(batch, head, i) && EntryValid(batch) && |row.s| == configs[batch].sk
    {
      var c, x := configs[batch], inputs[batch][head];
      RowPlace(i);
      RowAttends(sc, row, x.v, x.cols, TileKeys(c, i / M), Span(0, c.sk), PosInf,
                 LaunchOf(batch, head, i / M).SpoiltSum(sc, i), out)
    }

    /** The same with the documented mask. */
    ghost predicate RowDocumented(sc: Scaling, batch: nat, head: nat, i: nat, out: RowResult)
      requires Valid() && HasRow(batch, head, i) && EntryValid(batch)
    {
      RowServed(sc, batch, head, i, RowOf(configs[batch], inputs[batch][head], i), out)
    }
  }

  lemma SplitTileDone(sc: Scaling, o: Operation, t: Tile, l: SplitLaunch, res: TileResult)
    requires o.Valid() && o.useSplit && t.batch < |o.configs| && t.head < o.heads && o.EntryValid(t.batch)
    requires l == o.LaunchOf(t.batch, t.head, t.mBlock) && l.Valid()
    requires SplitDone(sc, l, t.split, NoKeys(o.splits > 1), res.o, res.lse)
    ensures o.TileDone(sc, t, res)
  {
    forall r | 0 <= r < o.M && l.row + r < o.seqlenQ
      ensures o.RowDone(sc, t, l.row + r, RowResult(res.o[r], res.lse[r]))
    {
    }
  }

  lemma UnsplitTileDone(sc: Scaling, o: Operation, t: Tile, row: nat, res: TileResult)
    requires o.Valid() && !o.useSplit && t.batch < |o.configs| && t.head < o.heads && o.EntryValid(t.batch)
    requires row == t.mBlock * o.M
    requires TileDocumented(sc, o.configs[t.batch], o.inputs[t.batch][t.head], t.mBlock, row, res.o, res.lse)
    ensures o.TileDone(sc, t, res)
  {
    forall r | 0 <= r < o.M && row + r < o.seqlenQ
      ensures o.RowDone(sc, t, row + r, RowResult(res.o[r], res.lse[r]))
    {
    }
  }

  /** What a share of a thread block does with its tile. */
  method RunTile(sc: Scaling, o: Operation, t: Tile) returns (res: TileResult)
    requires sc.t.Lawful() && o.Valid() && t.batch < |o.configs| && t.head < o.heads
    ensures o.TileDone(sc, t, res)
  {
    assert o.EntryValid(t.batch);
    var c, x, row := o.configs[t.batch], o.inputs[t.batch][t.head], t.mBlock * o.M;
    if o.useSplit {
      var l := SplitLaunch(c, x, t.mBlock, row, o.seqlenK, o.splits);
      var out, lse := SplitTile(sc, l, t.split, o.splits > 1);
      res := TileResult(out, lse);
      SplitTileDone(sc, o, t, l, res);
    } else {
      var out, lse := UnsplitTile(sc, c, x, t.mBlock);
      res := TileResult(out, lse);
      UnsplitTileDone(sc, o, t, row, res);
    }
  }

  /** The shares up to share `shift` of claim `a` have computed their tiles. */
  ghost predicate SharesDone(sc: Scaling, o: Operation, op: Op, log: seq<Claim>, results: map<Worker, TileResult>,
                             a: nat, shift: nat)
    requires o.Valid() && o.TileGrid().Valid()
  {
    forall w, t :: Computes(o.TileGrid(), op, log, w, t) && o.TileGrid().Has(t)
                   && (w.claim < a || (w.claim == a && w.shift < shift)) ==>
      w in results && o.TileDone(sc, t, results[w])
  }

  /** A thread block that holds claim `a`: each of its shares runs the tile of its logical block. */
  method RunClaim(sc: Scaling, o: Operation, op: Op, log: seq<Claim>, a: nat, was: map<Worker, TileResult>)
    returns (results: map<Worker, TileResult>)
    requires sc.t.Lawful() && o.Valid() && o.TileGrid().Valid() && a < |log| && SharesDone(sc, o, op, log, was, a, 0)
    ensures SharesDone(sc, o, op, log, results, a + 1, 0)
  {
    var g := o.TileGrid();
    results := was;
    if log[a].op == op {
      for shift := 0 to g.factor
        invariant SharesDone(sc, o, op, log, results, a, shift)
      {
        var id := LogicalBlock(g, log[a].slot, shift);
        if id < g.Blocks() {
          EncodeDecode(g, id);
          var res := RunTile(sc, o, g.Decoded(id));
          results := results[Worker(a, shift) := res];
        }
      }
    }
  }

  /** All thread blocks, one after the other; no tile depends on another. */
  method RunShares(sc: Scaling, o: Operation, op: Op, log: seq<Claim>) returns (results: map<Worker, TileResult>)
    requires sc.t.Lawful() && o.Valid() && o.TileGrid().Valid()
    ensures SharesDone(sc, o, op, log, results, |log|, 0)
  {
    results := map[];
    for a := 0 to |log|
      invariant SharesDone(sc, o, op, log, results, a, 0)
    {
      results := RunClaim(sc, o, op, log, a, results);
    }
  }

  // ----- What is in memory

  /** Row `r` of tile `t`, written by share `w`. */
  datatype Write = Write(w: Worker, t: Tile, r: nat) {
    /** The share computes the tile, and the row exists. */
    ghost predicate Due(o: Operation, op: Op, log: seq<Claim>)
      requires o.Valid() && o.TileGrid().Valid()
    {
      && Computes(o.TileGrid(), op, log, w, t) && o.TileGrid().Has(t)
      && r < o.M && t.mBlock * o.M + r < o.seqlenQ
    }

    function Target(o: Operation): nat {
      o.Place(t.split, t.batch, t.head, t.mBlock * o.M + r)
    }

    ghost predicate Possible(o: Operation, results: map<Worker, TileResult>, size: nat) {
      Target(o) < size && w in results && r < |results[w].o| && r < |results[w].lse|
    }

    function Value(results: map<Worker, TileResult>): RowResult
      requires w in results && r < |results[w].o| && r < |results[w].lse|
    {
      RowResult(results[w].o[r], results[w].lse[r])
    }
  }

  /** A run of one operation: what was claimed, what every share computed, and the memory afterwards. */
  datatype Outcome = Outcome(op: Op, log: seq<Claim>, results: map<Worker, TileResult>, mem: seq<RowResult>) {
    /** Every share computed its tile. */
    ghost predicate Computed(sc: Scaling, o: Operation)
      requires o.Valid() && o.TileGrid().Valid()
    {
      SharesDone(sc, o, op, log, results, |log|, 0)
    }

    ghost predicate SettledBy(o: Operation, a: nat, e: Write)
      requires o.Valid() && o.TileGrid().Valid() && a < |mem|
    {
      e.Due(o, op, log) && e.Target(o) == a && e.Possible(o, results, |mem|) && mem[a] == e.Value(results)
    }

    /** Place `a` holds what one of the shares that write to it has written. */
    ghost predicate Settled(o: Operation, a: nat)
      requires o.Valid() && o.TileGrid().Valid()
    {
      a < |mem| && exists e: Write :: SettledBy(o, a, e)
    }

    /** In whatever order the writes were done, every place that was written to is settled. */
    ghost predicate AllSettled(o: Operation)
      requires o.Valid() && o.TileGrid().Valid()
    {
      forall e: Write :: e.Due(o, op, log) ==> Settled(o, e.Target(o))
    }
  }

  /** The writes are those of the shares, in some order. */
  ghost predicate WritesOf(o: Operation, op: Op, log: seq<Claim>, writes: seq<Write>)
    requires o.Valid() && o.TileGrid().Valid()
  {
    forall e: Write :: e in writes <==> e.Due(o, op, log)
  }

  ghost predicate AllPossible(o: Operation, results: map<Worker, TileResult>, size: nat, writes: seq<Write>) {
    forall e: Write :: e in writes ==> e.Possible(o, results, size)
  }

  /** The memory after some writes, one after the other. */
  ghost function WriteAll(o: Operation, results: map<Worker, TileResult>, mem: seq<RowResult>, writes: seq<Write>)
    : (m: seq<RowResult>)
    requires AllPossible(o, results, |mem|, writes)
    ensures |m| == |mem|
  {
    if writes == [] then mem
    else
      var front, last := writes[..|writes| - 1], writes[|writes| - 1];
      assert last in writes && last.Possible(o, results, |mem|);
      WriteAll(o, results, mem, front)[last.Target(o) := last.Value(results)]
  }

  /** A place that is written to ends with what one of the writes to it has written. */
  lemma {:induction false} LastWrite(o: Operation, results: map<Worker, TileResult>, mem: seq<RowResult>,
                                     writes: seq<Write>, some: Write) returns (e: Write)
    requires AllPossible(o, results, |mem|, writes) && some in writes
    ensures e in writes && e.Target(o) == some.Target(o) < |mem| && e.Possible(o, results, |mem|)
    ensures WriteAll(o, results, mem, writes)[some.Target(o)] == e.Value(results)
    decreases |writes|
  {
    var front, last := writes[..|writes| - 1], writes[|writes| - 1];
    assert last in writes && last.Possible(o, results, |mem|);
    if last.Target(o) == some.Target(o) {
      e := last;
    } else {
      e := LastWrite(o, results, mem, front, some);
    }
  }

  /** In whatever order the shares write their rows, every place ends settled. */
  lemma AnyOrderSettles(o: Operation, op: Op, log: seq<Claim>, results: map<Worker, TileResult>, was: seq<RowResult>,
                        writes: seq<Write>, run: Outcome)
    requires o.Valid() && o.TileGrid().Valid() && WritesOf(o, op, log, writes) && AllPossible(o, results, |was|, writes)
    requires run == Outcome(op, log, results, WriteAll(o, results, was, writes))
    ensures run.AllSettled(o)
  {
    forall some: Write | some.Due(o, op, log)
      ensures run.Settled(o, some.Target(o))
    {
      var e := LastWrite(o, results, was, writes, some);
      assert run.SettledBy(o, some.Target(o), e);
    }
  }

  /** The buffers of all splits have room for every row. */
  lemma PlaceInBuffers(o: Operation, split: nat, batch: nat, head: nat, i: nat)
    requires o.HasRow(batch, head, i) && split < o.splits
    ensures o.Place(split, batch, head, i) < o.splits * o.Rows()
  {
    CombineReadsWhatSplitsWrote(|o.configs|, o.heads, o.seqlenQ, split, batch, head, i);
    MulMono(split + 1, o.splits, o.Rows());
    DistributeAdd(split, 1, o.Rows());
  }

  /** A share that has computed its tile can write every row of it. */
  lemma DuePossible(sc: Scaling, o: Operation, run: Outcome, e: Write)
    requires o.Valid() && o.TileGrid().Valid() && run.Computed(sc, o) && e.Due(o, run.op, run.log)
    requires |run.mem| == o.splits * o.Rows()
    ensures e.Possible(o, run.results, |run.mem|)
  {
    PlaceInBuffers(o, e.t.split, e.t.batch, e.t.head, e.t.mBlock * o.M + e.r);
    assert o.TileDone(sc, e.t, run.results[e.w]);
  }

  /** The writes themselves, in the order given. */
  method StoreRows(o: Operation, results: map<Worker, TileResult>, mem: array<RowResult>, writes: seq<Write>)
    requires AllPossible(o, results, mem.Length, writes)
    modifies mem
    ensures mem[..] == WriteAll(o, results, old(mem[..]), writes)
  {
    assert writes[..0] == [];
    for k := 0 to |writes|
      invariant AllPossible(o, results, mem.Length, writes[..k])
      invariant mem[..] == WriteAll(o, results, old(mem[..]), writes[..k])
    {
      assert writes[k] in writes && writes[k].Possible(o, results, mem.Length);
      assert writes[..k + 1][..k] == writes[..k];
      mem[writes[k].Target(o)] := writes[k].Value(results);
    }
    assert writes[..|writes|] == writes;
  }

  lemma GridValid(o: Operation)
    requires o.Valid()
    ensures o.TileGrid().Valid()
  {
    o.RowPlace(0);
  }

  /** Only the tile that a row belongs to writes to the row's place. */
  lemma WriterOfPlace(o: Operation, op: Op, log: seq<Claim>, e: Write, split: nat, batch: nat, head: nat, i: nat)
    requires o.Valid() && o.TileGrid().Valid() && o.HasRow(batch, head, i)
    requires e.Due(o, op, log) && e.Target(o) == o.Place(split, batch, head, i)
    ensures 0 <= i / o.M && e.t == Tile(i / o.M, split, batch, head) && e.t.mBlock * o.M + e.r == i
  {
    OffsetInjective(|o.configs|, o.heads, o.seqlenQ, split, batch, head, i, e.t.split, e.t.batch, e.t.head,
                    e.t.mBlock * o.M + e.r);
    DistributeAdd(e.t.mBlock, 1, o.M);
    QuotientUnique(i, o.M, e.t.mBlock);
  }

  /** What a share writes is what its tile is done with. */
  lemma ShareLeaves(sc: Scaling, o: Operation, run: Outcome, e: Write)
    requires o.Valid() && o.TileGrid().Valid() && run.Computed(sc, o) && e.Due(o, run.op, run.log)
    requires e.Possible(o, run.results, |run.mem|)
    ensures o.RowDone(sc, e.t, e.t.mBlock * o.M + e.r, e.Value(run.results))
  {
    assert o.TileDone(sc, e.t, run.results[e.w]);
  }

  /** So a place that was written to holds the result of its row's tile. */
  lemma PlaceHoldsRow(sc: Scaling, o: Operation, run: Outcome, split: nat, batch: nat, head: nat, i: nat)
    requires o.Valid() && o.TileGrid().Valid() && run.Computed(sc, o) && o.HasRow(batch, head, i)
    requires run.Settled(o, o.Place(split, batch, head, i))
    ensures var a := o.Place(split, batch, head, i);
            a < |run.mem| && 0 <= i / o.M && o.RowDone(sc, Tile(i / o.M, split, batch, head), i, run.mem[a])
  {
    var a := o.Place(split, batch, head, i);
    var e: Write :| run.SettledBy(o, a, e);
    WriterOfPlace(o, run.op, run.log, e, split, batch, head, i);
    ShareLeaves(sc, o, run, e);
  }

  /**
   A complete run of a fused launch of two operations, which has one slot for every `factor` logical
   blocks of each: the SMs of its thread blocks and the order in which they moved.
   */
  datatype Fused = Fused(prefill: Operation, decode: Operation, l: Launch, assignment: seq<nat>, schedule: seq<nat>) {
    ghost predicate Valid() {
      && prefill.Valid() && decode.Valid()
      && l.prefill == prefill.TileGrid().Slots() && l.decode == decode.TileGrid().Slots()
      && Complete(l, assignment, schedule)
    }

    function Chosen(op: Op): Operation {
      if op == Prefill then prefill else decode
    }

    /** The slots in the order in which they were claimed. */
    function Log(): seq<Claim>
      requires Valid()
    {
      Run(l, Init(l, assignment), schedule).log
    }
  }

  /** The run's log, what its shares computed and the memory belong to operation `op` of a complete run. */
  ghost predicate RunOf(sc: Scaling, f: Fused, run: Outcome)
    requires f.Valid()
  {
    var o := f.Chosen(run.op);
    && run.log == f.Log()
    && o.TileGrid().Valid() && run.Computed(sc, o) && run.AllSettled(o)
  }

  /** In a complete run some share writes every row of every split. */
  lemma WriterOfRow(f: Fused, op: Op, split: nat, batch: nat, head: nat, i: nat) returns (e: Write)
    requires f.Valid() && split < f.Chosen(op).splits && f.Chosen(op).HasRow(batch, head, i)
    requires f.Chosen(op).TileGrid().Valid()
    ensures e.Due(f.Chosen(op), op, f.Log()) && e.Target(f.Chosen(op)) == f.Chosen(op).Place(split, batch, head, i)
  {
    var o := f.Chosen(op);
    GridValid(f.prefill);
    GridValid(f.decode);
    o.RowPlace(i);
    var t := Tile(i / o.M, split, batch, head);
    var w := LaunchComputesEveryTileOnce(f.prefill.TileGrid(), f.decode.TileGrid(), f.l, f.assignment, f.schedule,
                                         op, t);
    e := Write(w, t, i % o.M);
  }

  /** So after a complete run every row of every split is in its place. */
  lemma SplitRowInPlace(sc: Scaling, f: Fused, run: Outcome, split: nat, batch: nat, head: nat, i: nat)
    requires f.Valid() && RunOf(sc, f, run)
    requires split < f.Chosen(run.op).splits && f.Chosen(run.op).HasRow(batch, head, i)
    ensures var o := f.Chosen(run.op);
            var a := o.Place(split, batch, head, i);
            a < |run.mem| && 0 <= i / o.M && o.RowDone(sc, Tile(i / o.M, split, batch, head), i, run.mem[a])
  {
    var o := f.Chosen(run.op);
    var e := WriterOfRow(f, run.op, split, batch, head, i);
    assert run.Settled(o, e.Target(o));
    PlaceHoldsRow(sc, o, run, split, batch, head, i);
  }

  // ----- Output rows

  /** The results of the splits of a row, which the combination reads at distances of one whole buffer. */
  ghost predicate Gathered(o: Operation, mem: seq<RowResult>, batch: nat, head: nat, i: nat, lses: seq<F>,
                           os: seq<seq<F>>)
  {
    var size, idx := o.Rows(), o.Place(0, batch, head, i);
    && |lses| == |os| == o.splits
    && forall k :: 0 <= k < o.splits ==>
      0 <= k * size + idx < |mem| && lses[k] == mem[k * size + idx].lse && os[k] == mem[k * size + idx].o
  }

  /** What the combination reads of a split is what is in the split's place. */
  lemma GatheredFromPlace(o: Operation, mem: seq<RowResult>, batch: nat, head: nat, i: nat, lses: seq<F>,
                          os: seq<seq<F>>, k: nat)
    requires o.HasRow(batch, head, i) && Gathered(o, mem, batch, head, i, lses, os) && k < o.splits
    ensures var a := o.Place(k, batch, head, i); a < |mem| && mem[a] == RowResult(os[k], lses[k])
  {
    CombineReadsWhatSplitsWrote(|o.configs|, o.heads, o.seqlenQ, k, batch, head, i);
    assert o.Place(k, batch, head, i) == k * o.Rows() + o.Place(0, batch, head, i);
  }

  /** `out` is what a launch outputs for a row: what one split wrote, or the combination of several. */
  ghost predicate OutputRow(sc: Scaling, o: Operation, mem: seq<RowResult>, batch: nat, head: nat, i: nat,
                            out: RowResult)
    requires batch < |o.inputs| && head < |o.inputs[batch]|
  {
    if o.splits > 1 then
      exists lses, os ::
        && Gathered(o, mem, batch, head, i, lses, os)
        && RowCombined(sc.t, lses, os, o.inputs[batch][head].cols, out.o, out.lse)
    else
      var a := o.Place(0, batch, head, i);
      a < |mem| && out == mem[a]
  }

  lemma RowsArePartsOf(sc: Scaling, o: Operation, batch: nat, head: nat, i: nat, m: nat, lses: seq<F>, os: seq<seq<F>>)
    requires o.Valid() && o.splits > 1 && o.HasRow(batch, head, i) && o.EntryValid(batch) && |lses| == |os| == o.splits
    requires forall k: nat :: k < o.splits ==> o.RowDone(sc, Tile(m, k, batch, head), i, RowResult(os[k], lses[k]))
    ensures PartsOf(sc, o.LaunchOf(batch, head, m), i, lses, os)
  {
    var l := o.LaunchOf(batch, head, m);
    forall k: nat | k < o.splits
      ensures l.SplitRow(sc, i, k, NegInf, RowResult(os[k], lses[k]))
    {
      assert o.RowDone(sc, Tile(m, k, batch, head), i, RowResult(os[k], lses[k]));
    }
  }

  lemma CombinedRowDocumented(sc: Scaling, o: Operation, batch: nat, head: nat, i: nat, m: nat, lses: seq<F>,
                              os: seq<seq<F>>, out: RowResult)
    requires sc.t.Lawful() && o.Valid() && o.useSplit && o.HasRow(batch, head, i) && o.EntryValid(batch)
    requires m == i / o.M && o.configs[batch].RowOfTile(m, i)
    requires PartsOf(sc, o.LaunchOf(batch, head, m), i, lses, os) && |os| == o.splits > 1
    requires RowCombined(sc.t, lses, os, o.inputs[batch][head].cols, out.o, out.lse)
    ensures o.RowDocumented(sc, batch, head, i, out)
  {
    var l := o.LaunchOf(batch, head, m);
    RowCombines(sc, l, i, lses, os, out);
    SplitsReachWithinSeqlenK(l.c, m, o.seqlenK, o.splits);
    LaunchDocumented(sc, l, i, l.SpoiltSum(sc, i), out);
  }

  lemma SingleRowDocumented(sc: Scaling, o: Operation, t: Tile, i: nat, out: RowResult)
    requires o.Valid() && o.splits == 1 && o.HasRow(t.batch, t.head, i) && o.EntryValid(t.batch)
    requires t.split == 0 && t.mBlock == i / o.M && o.configs[t.batch].RowOfTile(t.mBlock, i)
    requires o.RowDone(sc, t, i, out)
    ensures o.RowDocumented(sc, t.batch, t.head, i, out)
  {
    if o.useSplit {
      var l := o.LaunchOf(t.batch, t.head, t.mBlock);
      SplitsReachWithinSeqlenK(l.c, t.mBlock, o.seqlenK, o.splits);
      LaunchDocumented(sc, l, i, PosInf, out);
    }
  }

  /**
   The main theorem: in every complete run of a fused launch, every output row of the prefill and of
   the decode operation is the documented attention of its query over all keys, unless the scale is
   not positive and a key of its tile's blocks is masked.
   */
  lemma OutputIsAttention(sc: Scaling, f: Fused, run: Outcome, batch: nat, head: nat, i: nat, out: RowResult)
    requires sc.t.Lawful() && f.Valid()
    requires RunOf(sc, f, run)
    requires var o := f.Chosen(run.op);
             o.HasRow(batch, head, i) && o.EntryValid(batch) && OutputRow(sc, o, run.mem, batch, head, i, out)
    ensures f.Chosen(run.op).RowDocumented(sc, batch, head, i, out)
  {
    var o := f.Chosen(run.op);
    o.RowPlace(i);
    var m := i / o.M;
    DistributeAdd(m, 1, o.M);
    if o.splits > 1 {
      var lses, os :| Gathered(o, run.mem, batch, head, i, lses, os)
                      && RowCombined(sc.t, lses, os, o.inputs[batch][head].cols, out.o, out.lse);
      forall k: nat | k < o.splits
        ensures o.RowDone(sc, Tile(m, k, batch, head), i, RowResult(os[k], lses[k]))
      {
        SplitRowInPlace(sc, f, run, k, batch, head, i);
        GatheredFromPlace(o, run.mem, batch, head, i, lses, os, k);
      }
      RowsArePartsOf(sc, o, batch, head, i, m, lses, os);
      CombinedRowDocumented(sc, o, batch, head, i, m, lses, os, out);
    } else {
      SplitRowInPlace(sc, f, run, 0, batch, head, i);
      SingleRowDocumented(sc, o, Tile(m, 0, batch, head), i, out);
    }
  }

  // ----- Running a launch

  /**
   One operation of a complete run: every share of every claim computes its tile, and the rows are
   written to the buffers in the order `writes`.
   */
  method RunOperation(sc: Scaling, f: Fused, op: Op, mem: array<RowResult>, writes: seq<Write>) returns (run: Outcome)
    requires sc.t.Lawful() && f.Valid()
    requires var o := f.Chosen(op);
             && o.TileGrid().Valid() && mem.Length == o.splits * o.Rows()
             && WritesOf(o, op, f.Log(), writes)
    modifies mem
    ensures run.op == op && run.mem == mem[..] && RunOf(sc, f, run)
  {
    var o, log := f.Chosen(op), f.Log();
    var results := RunShares(sc, o, op, log);
    ghost var before := Outcome(op, log, results, mem[..]);
    forall e: Write | e in writes
      ensures e.Possible(o, results, mem.Length)
    {
      DuePossible(sc, o, before, e);
    }
    ghost var was := mem[..];
    StoreRows(o, results, mem, writes);
    run := Outcome(op, log, results, mem[..]);
    AnyOrderSettles(o, op, log, results, was, writes, run);
  }

  lemma ReadInBuffers(o: Operation, k: nat, idx: nat)
    requires k < o.splits && idx < o.Rows()
    ensures k * o.Rows() + idx < o.splits * o.Rows()
  {
    MulMono(k + 1, o.splits, o.Rows());
    DistributeAdd(k, 1, o.Rows());
  }

  /** What the combine kernel reads of a row. */
  function GatheredLses(o: Operation, mem: seq<RowResult>, idx: nat): (lses: seq<F>)
    requires idx < o.Rows() && |mem| == o.splits * o.Rows()
    ensures |lses| == o.splits
  {
    seq(o.splits, k requires 0 <= k < o.splits => ReadInBuffers(o, k, idx); mem[k * o.Rows() + idx].lse)
  }

  function GatheredOuts(o: Operation, mem: seq<RowResult>, idx: nat): (os: seq<seq<F>>)
    requires idx < o.Rows() && |mem| == o.splits * o.Rows()
    ensures |os| == o.splits
  {
    seq(o.splits, k requires 0 <= k < o.splits => ReadInBuffers(o, k, idx); mem[k * o.Rows() + idx].o)
  }

  lemma GatheredByIndex(o: Operation, mem: seq<RowResult>, batch: nat, head: nat, i: nat, lses: seq<F>,
                        os: seq<seq<F>>)
    requires |mem| == o.splits * o.Rows() && o.Place(0, batch, head, i) < o.Rows()
    requires lses == GatheredLses(o, mem, o.Place(0, batch, head, i))
    requires os == GatheredOuts(o, mem, o.Place(0, batch, head, i))
    ensures Gathered(o, mem, batch, head, i, lses, os)
  {
    var idx := o.Place(0, batch, head, i);
    forall k | 0 <= k < o.splits
      ensures 0 <= k * o.Rows() + idx < |mem|
    {
      MulMono(0, k, o.Rows());
      ReadInBuffers(o, k, idx);
    }
  }

  /** After a complete run every part that the combine kernel reads has as many columns as its head. */
  lemma PartsShaped(sc: Scaling, f: Fused, run: Outcome, batch: nat, head: nat, i: nat, os: seq<seq<F>>)
    requires f.Valid()
    requires RunOf(sc, f, run)
    requires var o := f.Chosen(run.op);
             && o.splits > 1 && o.HasRow(batch, head, i) && o.EntryValid(batch)
             && |run.mem| == o.splits * o.Rows() && o.Place(0, batch, head, i) < o.Rows()
             && os == GatheredOuts(o, run.mem, o.Place(0, batch, head, i))
    ensures var o := f.Chosen(run.op);
            forall k :: 0 <= k < |os| ==> |os[k]| == o.inputs[batch][head].cols
  {
    var o := f.Chosen(run.op);
    forall k | 0 <= k < |os|
      ensures |os[k]| == o.inputs[batch][head].cols
    {
      SplitRowInPlace(sc, f, run, k, batch, head, i);
      CombineReadsWhatSplitsWrote(|o.configs|, o.heads, o.seqlenQ, k, batch, head, i);
      assert o.Place(k, batch, head, i) == k * o.Rows() + o.Place(0, batch, head, i);
    }
  }

  /** Reads a row as its only split wrote it, or combines what its splits wrote. */
  method ReadRow(sc: Scaling, o: Operation, mem: seq<RowResult>, batch: nat, head: nat, i: nat, lanes: nat, slots: nat)
    returns (out: RowResult)
    requires sc.t.Lawful() && o.HasRow(batch, head, i) && batch < |o.inputs| && head < |o.inputs[batch]|
    requires 0 < o.splits <= slots && Allreduce.PowerOfTwo(lanes) && 2 <= lanes <= slots
    requires |mem| == o.splits * o.Rows() && o.Place(0, batch, head, i) < o.Rows()
    requires o.splits > 1 ==> var os := GatheredOuts(o, mem, o.Place(0, batch, head, i));
                              forall k :: 0 <= k < |os| ==> |os[k]| == o.inputs[batch][head].cols
    ensures OutputRow(sc, o, mem, batch, head, i, out)
  {
    var idx := o.Place(0, batch, head, i);
    if o.splits > 1 {
      var lses, os := GatheredLses(o, mem, idx), GatheredOuts(o, mem, idx);
      var outRow, lse := CombineRow(sc.t, lses, os, o.inputs[batch][head].cols, lanes, slots);
      out := RowResult(outRow, lse);
      GatheredByIndex(o, mem, batch, head, i, lses, os);
    } else {
      out := mem[idx];
    }
  }

  /** The output of one row after a complete run. */
  method OutputOf(sc: Scaling, f: Fused, run: Outcome, batch: nat, head: nat, i: nat, lanes: nat, slots: nat)
    returns (out: RowResult)
    requires sc.t.Lawful() && f.Valid()
    requires RunOf(sc, f, run)
    requires Allreduce.PowerOfTwo(lanes) && 2 <= lanes <= slots
    requires var o := f.Chosen(run.op);
             && o.HasRow(batch, head, i) && o.EntryValid(batch) && o.splits <= slots
             && |run.mem| == o.splits * o.Rows()
    ensures OutputRow(sc, f.Chosen(run.op), run.mem, batch, head, i, out)
    ensures f.Chosen(run.op).RowDocumented(sc, batch, head, i, out)
  {
    var o := f.Chosen(run.op);
    CombineReadsWhatSplitsWrote(|o.configs|, o.heads, o.seqlenQ, 0, batch, head, i);
    if o.splits > 1 {
      PartsShaped(sc, f, run, batch, head, i,
                  GatheredOuts(o, run.mem, o.Place(0, batch, head, i)));
    }
    out := ReadRow(sc, o, run.mem, batch, head, i, lanes, slots);
    OutputIsAttention(sc, f, run, batch, head, i, out);
  }

  /** The first rows of the output, in the order of the combine kernel. */
  ghost predicate OutputSoFar(sc: Scaling, o: Operation, out: seq<RowResult>)
    requires o.Valid()
  {
    forall batch: nat, head: nat, i: nat ::
      o.HasRow(batch, head, i) && o.EntryValid(batch) && o.Place(0, batch, head, i) < |out| ==>
        o.RowDocumented(sc, batch, head, i, out[o.Place(0, batch, head, i)])
  }

  lemma OneMoreRow(sc: Scaling, o: Operation, out: seq<RowResult>, batch: nat, head: nat, i: nat, row: RowResult)
    requires o.Valid() && OutputSoFar(sc, o, out) && o.HasRow(batch, head, i) && o.EntryValid(batch)
    requires |out| == o.Place(0, batch, head, i) && o.RowDocumented(sc, batch, head, i, row)
    ensures OutputSoFar(sc, o, out + [row])
  {
    forall b: nat, h: nat, q: nat | o.HasRow(b, h, q) && o.EntryValid(b) && o.Place(0, b, h, q) < |out| + 1
      ensures o.RowDocumented(sc, b, h, q, (out + [row])[o.Place(0, b, h, q)])
    {
      if o.Place(0, b, h, q) == |out| {
        OffsetInjective(|o.configs|, o.heads, o.seqlenQ, 0, batch, head, i, 0, b, h, q);
      }
    }
  }

  /**
   A whole operation of a fused launch: its tiles, the writes of its rows in any order, and the pass
   over all rows that follows. Every row of the output is the documented attention of its query over
   all keys, unless the scale is not positive and a key of its tile's blocks is masked.
   */
  method Forward(sc: Scaling, f: Fused, op: Op, mem: array<RowResult>, writes: seq<Write>, lanes: nat, slots: nat)
    returns (run: Outcome, out: seq<RowResult>)
    requires sc.t.Lawful() && f.Valid() && Allreduce.PowerOfTwo(lanes) && 2 <= lanes <= slots
    requires var o := f.Chosen(op);
             && o.TileGrid().Valid() && o.splits <= slots && mem.Length == o.splits * o.Rows()
             && WritesOf(o, op, f.Log(), writes)
    modifies mem
    ensures run.op == op && RunOf(sc, f, run)
    ensures |out| == f.Chosen(op).Rows() && OutputSoFar(sc, f.Chosen(op), out)
  {
    var o := f.Chosen(op);
    run := RunOperation(sc, f, op, mem, writes);
    out := [];
    for idx := 0 to o.Rows()
      invariant |out| == idx && OutputSoFar(sc, o, out)
    {
      RowOfIndex(|o.configs|, o.heads, o.seqlenQ, idx);
      var (batch, head, i) := CombineRowOf(o.heads, o.seqlenQ, idx);
      assert o.EntryValid(batch);
      var row := OutputOf(sc, f, run, batch, head, i, lanes, slots);
      OneMoreRow(sc, o, out, batch, head, i, row);
      out := out + [row];
    }
  }
}
