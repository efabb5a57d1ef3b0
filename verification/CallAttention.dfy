/**
 From a call to its answer (pod_attn/pod_attn/fused_api.cpp, pod_attn/pod_attn/fused_api_setup.h):
 the host rewrites the mask, turns grouped heads of a single query into rows if it can, launches,
 and turns the rows back into heads. Every head of every query of the call gets its own attention
 over the keys that the call's mask allows.
 */
module CallAttention {
  import opened IntMath
  import opened Floats
  import opened AttentionSpec
  import opened MaskSchedule
  import opened Kernel
  import opened SplitAttention
  import opened HostSetup
  import opened LaunchCoverage
  import opened FusedLaunch
  import Allreduce
  import Scheduler

  /** The rows of a tensor for each batch entry and head. */
  type Tensor = seq<seq<seq<seq<real>>>>

  /**
   One of the two calls of a fused call: its mask, `sq` queries of `kvHeads * groups` heads per batch
   entry (`q[batch][query][head]`), and the keys and values of each KV head (`keys[batch][kvHead]`).
   */
  datatype Call = Call(mask: Mask, sq: nat, groups: nat, kvHeads: nat, q: Tensor, keys: Tensor, values: Tensor,
                       cols: nat)
  {
    ghost predicate EntryValid(b: nat)
      requires b < |q| == |keys| == |values|
    {
      && |q[b]| == sq && (forall i :: 0 <= i < sq ==> |q[b][i]| == kvHeads * groups)
      && |keys[b]| == |values[b]| == kvHeads
    }

    ghost predicate Valid() {
      && sq > 0 && groups > 0 && kvHeads > 0 && |q| == |keys| == |values|
      && forall b :: 0 <= b < |q| ==> EntryValid(b)
    }

    /** There is such a head of such a query. */
    predicate Has(b: nat, i: nat, h: nat) {
      b < |q| && i < sq && h < kvHeads * groups
    }

    /** The KV head of a head: grouped heads share one. */
    function KvHead(h: nat): (kv: nat)
      requires groups > 0 && h < kvHeads * groups
      ensures kv < kvHeads
    {
      HeadSplit(groups, kvHeads, h);
      h / groups
    }

    /** The scores of one head of one query against the keys of its KV head. */
    function Scores(dot: (seq<real>, seq<real>) -> real, b: nat, i: nat, h: nat): (s: seq<real>)
      requires Valid() && Has(b, i, h) && EntryValid(b)
    {
      var k := keys[b][KvHead(h)];
      seq(|k|, j requires 0 <= j < |k| => dot(q[b][i][h], k[j]))
    }

    /** The query vector that the host puts in row `i` of head `head` of the launch. */
    function LaunchQuery(swapped: bool, b: nat, head: nat, i: nat): seq<real>
      requires Valid() && b < |q| && EntryValid(b)
      requires if swapped then i < groups && head < kvHeads else Has(b, i, head)
    {
      if swapped then Swap(q[b][0], groups, kvHeads)[i][head] else q[b][i][head]
    }

    /** The KV head that the kernel takes for a head of the launch: `bidh / h_h_k_ratio`. */
    function LaunchKvHead(swapped: bool, head: nat): nat
      requires groups > 0
    {
      if swapped then head else
        QuotientBounds(head, groups);
        head / groups
    }
  }

  /** The shape of the launch: grouped heads become rows if they are swapped. */
  ghost predicate Shaped(call: Call, o: Operation, swapped: bool) {
    && |o.configs| == |call.q|
    && (if swapped then o.heads == call.kvHeads && o.seqlenQ == call.groups
        else o.heads == call.kvHeads * call.groups && o.seqlenQ == call.sq)
  }

  /** The configurations of the launch are those of the rewritten mask. */
  ghost predicate Serves(o: Operation, a: Mask, sq: nat, fixed: bool, N: nat, swapped: bool) {
    && o.Valid() && N > 0
    && (forall b :: 0 <= b < |o.configs| ==>
         o.configs[b] == Rewrite(a, sq, o.seqlenQ, o.configs[b].sk, o.seqlenK, fixed, o.M, N))
    && (if swapped then sq == 1 && Swaps(a, 1, o.heads * o.seqlenQ, o.heads)
        else sq == o.seqlenQ && RewriteSafe(a, sq, o.seqlenK))
  }

  /** Row `i` of head `head` of the launch has the scores and values of its query vector and KV head. */
  ghost predicate InputRow(call: Call, o: Operation, dot: (seq<real>, seq<real>) -> real, swapped: bool, b: nat,
                           head: nat, i: nat)
    requires call.Valid() && o.Valid() && Shaped(call, o, swapped) && o.HasRow(b, head, i)
    requires call.EntryValid(b) && o.EntryValid(b)
  {
    var x, kv := o.inputs[b][head], call.LaunchKvHead(swapped, head);
    && kv < call.kvHeads && |call.keys[b][kv]| == o.configs[b].sk && x.cols == call.cols && x.v == call.values[b][kv]
    && forall j :: 0 <= j < o.configs[b].sk ==>
      x.s[i][j] == dot(call.LaunchQuery(swapped, b, head, i), call.keys[b][kv][j])
  }

  /** The operation launches the call. */
  ghost predicate Launched(call: Call, o: Operation, dot: (seq<real>, seq<real>) -> real, fixed: bool, N: nat,
                           swapped: bool)
  {
    && call.Valid() && Serves(o, call.mask, call.sq, fixed, N, swapped) && Shaped(call, o, swapped)
    && forall b: nat, head: nat, i: nat :: o.HasRow(b, head, i) && call.EntryValid(b) && o.EntryValid(b) ==>
      InputRow(call, o, dot, swapped, b, head, i)
  }

  /** The query that row `i` of the launch belongs to. */
  function QueryOf(swapped: bool, i: nat): nat {
    if swapped then 0 else i
  }

  /** A row of the launch sees exactly the keys that the call lets its query see. */
  lemma RowIsQuery(o: Operation, a: Mask, sq: nat, fixed: bool, N: nat, swapped: bool, batch: nat, head: nat, i: nat)
    requires Serves(o, a, sq, fixed, N, swapped) && o.HasRow(batch, head, i) && o.EntryValid(batch)
    ensures var c, x := o.configs[batch], o.inputs[batch][head];
            RowOf(c, x, i) == Row(x.s[i], KeysAllowed(a, sq, c.sk, QueryOf(swapped, i)))
  {
    var c, x := o.configs[batch], o.inputs[batch][head];
    if swapped {
      SwappedRowSees(a, o.heads * o.seqlenQ, o.heads, o.seqlenQ, c.sk, o.seqlenK, fixed, o.M, N, i);
      assert RowOf(c, x, i).vis == KeysSeen(c, i);
    } else {
      forall j | 0 <= j < c.sk
        ensures RowOf(c, x, i).vis[j] == KeysAllowed(a, sq, c.sk, i)[j]
      {
        KernelRowSeesCallMask(a, sq, c.sk, o.seqlenK, fixed, o.M, N, x, i, j);
        assert RowOf(c, x, i).Sees(j) == RowOf(c, x, i).vis[j];
      }
      assert RowOf(c, x, i).vis == KeysAllowed(a, sq, c.sk, i);
    }
  }

  // ----- Where the rows of the launch end up

  /** The head and the row of the launch that compute head `h` of query `i` of the call. */
  function LaunchHead(call: Call, swapped: bool, h: nat): nat
    requires call.groups > 0
  {
    if swapped then
      QuotientBounds(h, call.groups);
      h / call.groups
    else h
  }

  function LaunchRow(call: Call, swapped: bool, i: nat, h: nat): nat
    requires call.groups > 0
  {
    if swapped then h % call.groups else i
  }

  /** They hold that head's query vector and KV head. */
  lemma LaunchPosition(call: Call, o: Operation, swapped: bool, b: nat, i: nat, h: nat)
    requires call.Valid() && Shaped(call, o, swapped) && call.Has(b, i, h) && call.EntryValid(b)
    requires swapped ==> call.sq == 1
    ensures var head, row := LaunchHead(call, swapped, h), LaunchRow(call, swapped, i, h);
            && o.HasRow(b, head, row) && QueryOf(swapped, row) == i
            && call.LaunchKvHead(swapped, head) == call.KvHead(h)
            && call.LaunchQuery(swapped, b, head, row) == call.q[b][i][h]
  {
    HeadSplit(call.groups, call.kvHeads, h);
  }

  lemma RowInOutput(o: Operation, b: nat, head: nat, i: nat)
    requires o.HasRow(b, head, i)
    ensures o.Place(0, b, head, i) < o.Rows()
  {
    CombineReadsWhatSplitsWrote(|o.configs|, o.heads, o.seqlenQ, 0, b, head, i);
  }

  /** The rows of one batch entry in the output of a launch. */
  function RowsOf(o: Operation, out: seq<RowResult>, b: nat): (rows: seq<seq<RowResult>>)
    requires |out| == o.Rows() && b < |o.configs|
    ensures |rows| == o.seqlenQ && forall i :: 0 <= i < |rows| ==> |rows[i]| == o.heads
  {
    seq(o.seqlenQ, i requires 0 <= i < o.seqlenQ =>
      seq(o.heads, head requires 0 <= head < o.heads => RowInOutput(o, b, head, i); out[o.Place(0, b, head, i)]))
  }

  /** What the host returns for head `h` of query `i`: rows are turned back into heads if they were swapped. */
  function Answer(call: Call, o: Operation, out: seq<RowResult>, swapped: bool, b: nat, i: nat, h: nat): RowResult
    requires call.Valid() && |out| == o.Rows() && call.Has(b, i, h) && Shaped(call, o, swapped)
  {
    var rows := RowsOf(o, out, b);
    if swapped then Unswap(rows, call.groups, call.kvHeads)[h] else rows[i][h]
  }

  lemma AnswerFromRow(call: Call, o: Operation, out: seq<RowResult>, swapped: bool, b: nat, i: nat, h: nat)
    requires call.Valid() && |out| == o.Rows() && call.Has(b, i, h) && Shaped(call, o, swapped) && call.EntryValid(b)
    requires swapped ==> call.sq == 1
    ensures var head, row := LaunchHead(call, swapped, h), LaunchRow(call, swapped, i, h);
            o.Place(0, b, head, row) < |out| && Answer(call, o, out, swapped, b, i, h) == out[o.Place(0, b, head, row)]
  {
    LaunchPosition(call, o, swapped, b, i, h);
    RowInOutput(o, b, LaunchHead(call, swapped, h), LaunchRow(call, swapped, i, h));
  }

  /**
   `out` is the attention of head `h` of query `i` over the keys of its KV head that the call's mask
   allows, unless the scale is not positive and a key of the blocks that were walked is masked.
   */
  ghost predicate Answered(sc: Scaling, call: Call, o: Operation, dot: (seq<real>, seq<real>) -> real, swapped: bool,
                           b: nat, i: nat, h: nat, out: RowResult)
    requires call.Valid() && call.Has(b, i, h) && call.EntryValid(b)
    requires o.Valid() && Shaped(call, o, swapped) && o.EntryValid(b) && (swapped ==> call.sq == 1)
  {
    LaunchPosition(call, o, swapped, b, i, h);
    var head, row := LaunchHead(call, swapped, h), LaunchRow(call, swapped, i, h);
    var asked := Row(call.Scores(dot, b, i, h), KeysAllowed(call.mask, call.sq, o.configs[b].sk, i));
    |asked.s| == o.configs[b].sk && o.inputs[b][head].v == call.values[b][call.KvHead(h)]
    && o.RowServed(sc, b, head, row, asked, out)
  }

  lemma RowAnswers(sc: Scaling, call: Call, o: Operation, dot: (seq<real>, seq<real>) -> real, fixed: bool, N: nat,
                   swapped: bool, b: nat, i: nat, h: nat, out: RowResult)
    requires Launched(call, o, dot, fixed, N, swapped) && call.Has(b, i, h) && call.EntryValid(b) && o.EntryValid(b)
    requires var head, row := LaunchHead(call, swapped, h), LaunchRow(call, swapped, i, h);
             o.HasRow(b, head, row) && o.RowDocumented(sc, b, head, row, out)
    ensures Answered(sc, call, o, dot, swapped, b, i, h, out)
  {
    var head, row := LaunchHead(call, swapped, h), LaunchRow(call, swapped, i, h);
    LaunchPosition(call, o, swapped, b, i, h);
    assert InputRow(call, o, dot, swapped, b, head, row);
    RowIsQuery(o, call.mask, call.sq, fixed, N, swapped, b, head, row);
    assert o.inputs[b][head].s[row] == call.Scores(dot, b, i, h);
  }

  /**
   The answer to a call: if every row of the launch is what it owes its query, every head of every
   query of the call is answered, swapped or not.
   */
  lemma CallAnswered(sc: Scaling, call: Call, o: Operation, dot: (seq<real>, seq<real>) -> real, fixed: bool, N: nat,
                     swapped: bool, out: seq<RowResult>, b: nat, i: nat, h: nat)
    requires Launched(call, o, dot, fixed, N, swapped) && |out| == o.Rows() && OutputSoFar(sc, o, out)
    requires call.Has(b, i, h) && call.EntryValid(b) && o.EntryValid(b)
    ensures Answered(sc, call, o, dot, swapped, b, i, h, Answer(call, o, out, swapped, b, i, h))
  {
    LaunchPosition(call, o, swapped, b, i, h);
    AnswerFromRow(call, o, out, swapped, b, i, h);
    RowAnswers(sc, call, o, dot, fixed, N, swapped, b, i, h, Answer(call, o, out, swapped, b, i, h));
  }

  /** One call of a fused call, from the launch to the answer, with its thread blocks and writes in any order. */
  method AnswerCall(sc: Scaling, f: Fused, op: Scheduler.Op, call: Call, ghost dot: (seq<real>, seq<real>) -> real,
                    ghost fixed: bool, ghost N: nat, swapped: bool, mem: array<RowResult>, writes: seq<Write>,
                    lanes: nat, slots: nat)
    returns (out: seq<RowResult>)
    requires sc.t.Lawful() && f.Valid() && Allreduce.PowerOfTwo(lanes) && 2 <= lanes <= slots
    requires Launched(call, f.Chosen(op), dot, fixed, N, swapped)
    requires var o := f.Chosen(op);
             && o.TileGrid().Valid() && o.splits <= slots && mem.Length == o.splits * o.Rows()
             && WritesOf(o, op, f.Log(), writes)
    modifies mem
    ensures |out| == f.Chosen(op).Rows()
    ensures forall b: nat, i: nat, h: nat ::
      call.Has(b, i, h) && call.EntryValid(b) && f.Chosen(op).EntryValid(b) ==>
        Answered(sc, call, f.Chosen(op), dot, swapped, b, i, h, Answer(call, f.Chosen(op), out, swapped, b, i, h))
  {
    var o := f.Chosen(op);
    var run;
    run, out := Forward(sc, f, op, mem, writes, lanes, slots);
    forall b: nat, i: nat, h: nat | call.Has(b, i, h) && call.EntryValid(b) && o.EntryValid(b)
      ensures Answered(sc, call, o, dot, swapped, b, i, h, Answer(call, o, out, swapped, b, i, h))
    {
      CallAnswered(sc, call, o, dot, fixed, N, swapped, out, b, i, h);
    }
  }
}
