/**
 From slots to tiles (pod_attn/pod_attn/fused_fwd_kernel.h): a slot stands for several logical
 blocks, and a logical block is decoded into query tile, split, batch entry and head. Together
 with the scheduler this shows that a launch computes every tile exactly once.
 */
module LaunchCoverage {
  import opened IntMath
  import opened Scheduler

  datatype Tile = Tile(mBlock: nat, split: nat, batch: nat, head: nat)

  /** A mixed-radix number with the given lowest digit. */
  function Digits(low: nat, radix: nat, high: nat): nat {
    low + radix * high
  }

  /** The tiles of one operation and how many logical blocks a thread block runs. */
  datatype Grid = Grid(mBlocks: nat, splits: nat, batches: nat, heads: nat, factor: nat) {
    predicate Valid() {
      mBlocks > 0 && splits > 0 && batches > 0 && heads > 0 && factor > 0
    }

    predicate Has(t: Tile) {
      t.mBlock < mBlocks && t.split < splits && t.batch < batches && t.head < heads
    }

    function Blocks(): nat {
      mBlocks * (splits * (batches * heads))
    }

    function Slots(): nat
      requires factor > 0
    {
      CeilNat(Blocks(), factor)
    }

    /** The tile of a logical block. */
    function Decoded(id: nat): Tile
      requires Valid()
    {
      Tile(id % mBlocks, (id / mBlocks) % splits, (id / mBlocks / splits) % batches,
           (id / mBlocks / splits / batches) % heads)
    }

    /** The logical block of a tile. */
    function Encoded(t: Tile): nat {
      Digits(t.mBlock, mBlocks, Digits(t.split, splits, Digits(t.batch, batches, t.head)))
    }
  }

  lemma DigitOf(low: nat, radix: nat, high: nat)
    requires low < radix
    ensures Digits(low, radix, high) % radix == low && Digits(low, radix, high) / radix == high
  {
    DistributeAdd(high, 1, radix);
    QuotientUnique(low + radix * high, radix, high);
  }

  lemma DigitBound(low: nat, radix: nat, high: nat, bound: nat)
    requires low < radix && high < bound
    ensures Digits(low, radix, high) < radix * bound
  {
    MulMono(high + 1, bound, radix);
    DistributeAdd(high, 1, radix);
  }

  /** A number below `radix * bound` is made of its remainder and a quotient below `bound`. */
  lemma QuotientDigits(id: nat, radix: nat, bound: nat) returns (high: nat)
    requires radix > 0 && id < radix * bound
    ensures high == id / radix < bound && id % radix < radix && Digits(id % radix, radix, high) == id
  {
    QuotientBounds(id, radix);
    DivMod(id, radix);
    high := id / radix;
    if high >= bound {
      MulMono(bound, high, radix);
    }
  }

  /** Decoding is a bijection from the logical blocks of a launch to its tiles. */
  lemma DecodeEncode(g: Grid, t: Tile)
    requires g.Valid() && g.Has(t)
    ensures g.Encoded(t) < g.Blocks() && g.Decoded(g.Encoded(t)) == t
  {
    var d2 := Digits(t.batch, g.batches, t.head);
    var d1 := Digits(t.split, g.splits, d2);
    DigitOf(t.mBlock, g.mBlocks, d1);
    DigitOf(t.split, g.splits, d2);
    DigitOf(t.batch, g.batches, t.head);
    QuotientUnique(t.head, g.heads, 0);
    DigitBound(t.batch, g.batches, t.head, g.heads);
    DigitBound(t.split, g.splits, d2, g.batches * g.heads);
    DigitBound(t.mBlock, g.mBlocks, d1, g.splits * (g.batches * g.heads));
  }

  lemma EncodeDecode(g: Grid, id: nat)
    requires g.Valid() && id < g.Blocks()
    ensures g.Has(g.Decoded(id)) && g.Encoded(g.Decoded(id)) == id
  {
    var q1 := QuotientDigits(id, g.mBlocks, g.splits * (g.batches * g.heads));
    var q2 := QuotientDigits(q1, g.splits, g.batches * g.heads);
    var q3 := QuotientDigits(q2, g.batches, g.heads);
    QuotientUnique(q3, g.heads, 0);
  }

  // ----- The whole launch

  /** A thread block and the share of its threads that computes one logical block. */
  datatype Worker = Worker(claim: nat, shift: nat)

  /** The logical block that share `shift` of a thread block with this slot runs. */
  function LogicalBlock(g: Grid, slot: nat, shift: nat): nat {
    slot * g.factor + shift
  }

  /** Share `shift` of a thread block with this slot runs the tile: it exists and decodes to it. */
  predicate Runs(g: Grid, slot: nat, shift: nat, t: Tile)
    requires g.Valid()
  {
    && shift < g.factor
    && LogicalBlock(g, slot, shift) < g.Blocks()
    && g.Decoded(LogicalBlock(g, slot, shift)) == t
  }

  /** `w` computes tile `t` of `op`: its claim is of that operation and its share runs the tile. */
  predicate Computes(g: Grid, op: Op, log: seq<Claim>, w: Worker, t: Tile)
    requires g.Valid()
  {
    w.claim < |log| && log[w.claim].op == op && Runs(g, log[w.claim].slot, w.shift, t)
  }

  /** Every logical block has a slot within the limit and a share. */
  lemma PlaceOfBlock(g: Grid, id: nat) returns (slot: nat, shift: nat)
    requires g.Valid() && id < g.Blocks()
    ensures slot < g.Slots() && shift < g.factor && LogicalBlock(g, slot, shift) == id
  {
    slot, shift := id / g.factor, id % g.factor;
    DivMod(id, g.factor);
    QuotientBounds(g.Blocks() + g.factor - 1, g.factor);
    DistributeAdd(g.Slots(), 1, g.factor);
    if slot >= g.Slots() {
      MulMono(g.Slots(), slot, g.factor);
    }
  }

  lemma BlockOfSlot(g: Grid, slot: nat, shift: nat)
    requires g.Valid() && shift < g.factor
    ensures LogicalBlock(g, slot, shift) / g.factor == slot && LogicalBlock(g, slot, shift) % g.factor == shift
  {
    DistributeAdd(slot, 1, g.factor);
    QuotientUnique(LogicalBlock(g, slot, shift), g.factor, slot);
  }

  /** Every tile of a launch is run by some share of some slot within the limit ... */
  lemma PlaceOfTile(g: Grid, t: Tile) returns (slot: nat, shift: nat)
    requires g.Valid() && g.Has(t)
    ensures slot < g.Slots() && Runs(g, slot, shift, t)
  {
    DecodeEncode(g, t);
    slot, shift := PlaceOfBlock(g, g.Encoded(t));
  }

  /** ... and by no other. */
  lemma PlaceUnique(g: Grid, t: Tile, slot: nat, shift: nat, slot': nat, shift': nat)
    requires g.Valid() && Runs(g, slot, shift, t) && Runs(g, slot', shift', t)
    ensures slot == slot' && shift == shift'
  {
    EncodeDecode(g, LogicalBlock(g, slot, shift));
    EncodeDecode(g, LogicalBlock(g, slot', shift'));
    BlockOfSlot(g, slot, shift);
    BlockOfSlot(g, slot', shift');
  }

  /** When every slot is claimed once, every tile is computed by exactly one share of one thread block. */
  lemma TileComputedOnce(g: Grid, op: Op, log: seq<Claim>, t: Tile) returns (w: Worker)
    requires g.Valid() && g.Has(t)
    requires forall slot: nat :: slot < g.Slots() ==> ClaimedOnce(log, op, slot)
    ensures Computes(g, op, log, w, t)
    ensures forall w' :: Computes(g, op, log, w', t) ==> w' == w
  {
    var slot, shift := PlaceOfTile(g, t);
    assert ClaimedOnce(log, op, slot);
    var a :| ClaimedAt(log, op, slot, a);
    w := Worker(a, shift);
    forall w' | Computes(g, op, log, w', t)
      ensures w' == w
    {
      PlaceUnique(g, t, slot, shift, log[w'.claim].slot, w'.shift);
    }
  }

  /** The fused launch has one thread block per slot of both operations, on any SMs. */
  ghost predicate Placed(l: Launch, assignment: seq<nat>) {
    && l.Valid() && !l.persistent && |assignment| == l.prefill + l.decode
    && forall i :: 0 <= i < |assignment| ==> assignment[i] < l.sms
  }

  /** A run of it is over. */
  ghost predicate Complete(l: Launch, assignment: seq<nat>, schedule: seq<nat>) {
    Placed(l, assignment) && Finished(Run(l, Init(l, assignment), schedule))
  }

  /** Every launch whose thread blocks keep getting turns comes to an end. */
  lemma FairRunComplete(l: Launch, assignment: seq<nat>, rounds: seq<seq<nat>>)
    requires Placed(l, assignment) && Fair(rounds, |assignment|) && |rounds| >= 6 * (l.prefill + l.decode)
    ensures Complete(l, assignment, Flatten(rounds))
  {
    FairLaunchCompletes(l, assignment, rounds);
  }

  /**
   In every complete run of a fused launch, on any placement of thread blocks on SMs, every prefill
   tile and every decode tile is computed by exactly one share of exactly one thread block.
   */
  lemma LaunchComputesEveryTileOnce(prefill: Grid, decode: Grid, l: Launch, assignment: seq<nat>, schedule: seq<nat>,
                                    op: Op, t: Tile)
    returns (w: Worker)
    requires prefill.Valid() && decode.Valid() && l.prefill == prefill.Slots() && l.decode == decode.Slots()
    requires Complete(l, assignment, schedule)
    requires (if op == Prefill then prefill else decode).Has(t)
    ensures var g := if op == Prefill then prefill else decode;
            var log := Run(l, Init(l, assignment), schedule).log;
            && Computes(g, op, log, w, t)
            && forall w' :: Computes(g, op, log, w', t) ==> w' == w
  {
    OneShotExact(l, assignment, schedule);
    w := TileComputedOnce(if op == Prefill then prefill else decode, op, Run(l, Init(l, assignment), schedule).log, t);
  }

  // ----- Where split results are written and read

  /** The place at which a split writes the result of a row of a batch entry and head. */
  function PartialOffset(batches: nat, heads: nat, seqlenQ: nat, split: nat, batch: nat, head: nat, row: nat): nat {
    ((split * batches + batch) * heads + head) * seqlenQ + row
  }

  /** The row a combine thread handles: batch entry, head and query. */
  function CombineRowOf(heads: nat, seqlenQ: nat, idx: nat): (nat, nat, int)
    requires heads * seqlenQ > 0 && seqlenQ > 0
  {
    var batch := idx / (heads * seqlenQ);
    var head := (idx - batch * (heads * seqlenQ)) / seqlenQ;
    QuotientBounds(idx, heads * seqlenQ);
    QuotientBounds(idx - batch * (heads * seqlenQ), seqlenQ);
    (batch, head, idx - batch * (heads * seqlenQ) - head * seqlenQ)
  }

  lemma RowInBounds(batches: nat, size: nat, seqlenQ: nat, heads: nat, batch: nat, head: nat, row: nat)
    requires size == heads * seqlenQ && batch < batches && head < heads && row < seqlenQ
    ensures batch * size + head * seqlenQ + row < batches * heads * seqlenQ
  {
    assert batches * heads * seqlenQ == batches * size;
    MulMono(head + 1, heads, seqlenQ);
    DistributeAdd(head, 1, seqlenQ);
    MulMono(batch + 1, batches, size);
    DistributeAdd(batch, 1, size);
  }

  lemma RowTakenApart(size: nat, seqlenQ: nat, heads: nat, batch: nat, head: nat, row: nat)
    requires size == heads * seqlenQ && head < heads && row < seqlenQ && size > 0
    ensures CombineRowOf(heads, seqlenQ, batch * size + head * seqlenQ + row) == (batch, head, row)
  {
    MulMono(head + 1, heads, seqlenQ);
    DistributeAdd(head, 1, seqlenQ);
    DistributeAdd(batch, 1, size);
    QuotientUnique(batch * size + head * seqlenQ + row, size, batch);
    QuotientUnique(head * seqlenQ + row, seqlenQ, head);
  }

  lemma OffsetExpand(batches: nat, heads: nat, seqlenQ: nat, split: nat, batch: nat, head: nat, row: nat)
    ensures PartialOffset(batches, heads, seqlenQ, split, batch, head, row)
            == split * (batches * heads * seqlenQ) + batch * (heads * seqlenQ) + head * seqlenQ + row
  {
    assert (split * batches + batch) * heads == split * (batches * heads) + batch * heads;
    var a := split * (batches * heads) + batch * heads;
    assert (a + head) * seqlenQ == a * seqlenQ + head * seqlenQ;
    assert a * seqlenQ == split * (batches * heads * seqlenQ) + batch * (heads * seqlenQ);
  }

  /**
   The combine kernel finds the results of split `split` for the `idx`-th row at the place where
   the split wrote them, and takes that row apart into the same batch entry, head and query.
   */
  lemma CombineReadsWhatSplitsWrote(batches: nat, heads: nat, seqlenQ: nat, split: nat, batch: nat, head: nat, row: nat)
    requires batch < batches && head < heads && row < seqlenQ
    ensures heads * seqlenQ > 0
    ensures var idx := PartialOffset(batches, heads, seqlenQ, 0, batch, head, row);
            && idx < batches * heads * seqlenQ
            && PartialOffset(batches, heads, seqlenQ, split, batch, head, row)
              == split * (batches * heads * seqlenQ) + idx
            && CombineRowOf(heads, seqlenQ, idx) == (batch, head, row)
  {
    MulMono(1, heads, seqlenQ);
    OffsetExpand(batches, heads, seqlenQ, split, batch, head, row);
    OffsetExpand(batches, heads, seqlenQ, 0, batch, head, row);
    RowInBounds(batches, heads * seqlenQ, seqlenQ, heads, batch, head, row);
    RowTakenApart(heads * seqlenQ, seqlenQ, heads, batch, head, row);
  }

  lemma IndexDigits(size: nat, seqlenQ: nat, heads: nat, batches: nat, idx: nat)
    returns (batch: nat, head: nat, row: nat)
    requires size == heads * seqlenQ && seqlenQ > 0 && size > 0 && idx < size * batches
    ensures batch < batches && head < heads && row < seqlenQ && idx == batch * size + head * seqlenQ + row
  {
    batch := QuotientDigits(idx, size, batches);
    head := QuotientDigits(idx % size, seqlenQ, heads);
    row := idx % size % seqlenQ;
  }

  lemma NonEmptyProduct(batches: nat, heads: nat, seqlenQ: nat)
    requires batches * heads * seqlenQ > 0
    ensures seqlenQ > 0 && heads * seqlenQ > 0 && batches * heads * seqlenQ == heads * seqlenQ * batches
  {
  }

  /** Every index of the combine kernel is the place of the row that it takes the index apart into. */
  lemma RowOfIndex(batches: nat, heads: nat, seqlenQ: nat, idx: nat)
    requires idx < batches * heads * seqlenQ
    ensures heads * seqlenQ > 0 && seqlenQ > 0
    ensures var (batch, head, row) := CombineRowOf(heads, seqlenQ, idx);
            && batch < batches && head < heads && 0 <= row < seqlenQ
            && PartialOffset(batches, heads, seqlenQ, 0, batch, head, row) == idx
  {
    NonEmptyProduct(batches, heads, seqlenQ);
    var batch, head, row := IndexDigits(heads * seqlenQ, seqlenQ, heads, batches, idx);
    RowTakenApart(heads * seqlenQ, seqlenQ, heads, batch, head, row);
    OffsetExpand(batches, heads, seqlenQ, 0, batch, head, row);
  }

  /** No two results have the same place. */
  lemma OffsetInjective(batches: nat, heads: nat, seqlenQ: nat, split: nat, batch: nat, head: nat, row: nat,
                        split': nat, batch': nat, head': nat, row': nat)
    requires batch < batches && head < heads && row < seqlenQ && batch' < batches && head' < heads && row' < seqlenQ
    requires PartialOffset(batches, heads, seqlenQ, split, batch, head, row)
             == PartialOffset(batches, heads, seqlenQ, split', batch', head', row')
    ensures split == split' && batch == batch' && head == head' && row == row'
  {
    var size := batches * heads * seqlenQ;
    var idx := PartialOffset(batches, heads, seqlenQ, 0, batch, head, row);
    var idx' := PartialOffset(batches, heads, seqlenQ, 0, batch', head', row');
    CombineReadsWhatSplitsWrote(batches, heads, seqlenQ, split, batch, head, row);
    CombineReadsWhatSplitsWrote(batches, heads, seqlenQ, split', batch', head', row');
    DistributeAdd(split, 1, size);
    DistributeAdd(split', 1, size);
    QuotientUnique(split * size + idx, size, split);
    QuotientUnique(split' * size + idx', size, split');
  }
}
