/**
 What the host does to a call before it launches a kernel (pod_attn/pod_attn/fused_api_setup.h):
 causal masks and windows are put in the form the kernels expect, and grouped query heads of a
 single query become query rows.
 */
module HostSetup {
  import opened IntMath
  import opened MaskSchedule
  import Kernel

  /** A call's mask: a causal flag and a window, where a negative size means no limit. */
  datatype Mask = Mask(causal: bool, left: int, right: int) {
    /** The documented meaning: may query `i` of `sq` attend to key `j` of `sk`? */
    predicate Allows(sq: nat, sk: nat, i: int, j: int) {
      && 0 <= j < sk
      && (causal ==> j <= i + sk - sq)
      && (left >= 0 ==> j >= i + sk - sq - left)
      && (right >= 0 ==> j <= i + sk - sq + right)
    }
  }

  /** The right limit once the causal flag has been turned into a window. */
  function RightLimit(a: Mask, sq: nat): int {
    if a.causal && sq != 1 then 0 else a.right
  }

  /** A limit no key of the cache can exceed is dropped. */
  function Dropped(limit: int, seqlenK: nat): int {
    if limit >= seqlenK then -1 else limit
  }

  function LeftLimit(a: Mask, seqlenK: nat): int {
    Dropped(a.left, seqlenK)
  }

  /**
   The flags and windows a kernel is launched with, for a call with `sq` queries, `rows` query rows
   in the launch and a cache of capacity `seqlenK`. Only a launch without per-entry lengths, which is
   then one for `sk == seqlenK` keys, can be even.
   */
  function Rewrite(a: Mask, sq: nat, rows: nat, sk: nat, seqlenK: nat, fixed: bool, M: nat, N: nat): Config
    requires M > 0 && N > 0
  {
    var left, right := LeftLimit(a, seqlenK), Dropped(RightLimit(a, sq), seqlenK);
    var isCausal := left < 0 && right == 0;
    var left := if left < 0 && right >= 0 then seqlenK else left;
    var right := if left >= 0 && right < 0 then seqlenK else right;
    var isLocal := (left >= 0 || right >= 0) && !isCausal;
    Config(M, N, rows, sk, left, right, isCausal, isLocal, fixed && seqlenK % N == 0 && rows % M == 0 && !isLocal)
  }

  /** The kernels' assumptions about flags and windows hold for every call. */
  lemma RewriteValid(a: Mask, sq: nat, rows: nat, sk: nat, seqlenK: nat, fixed: bool, M: nat, N: nat)
    requires M > 0 && N > 0 && (fixed ==> sk == seqlenK)
    ensures Rewrite(a, sq, rows, sk, seqlenK, fixed, M, N).Valid()
  {
  }

  predicate SameAt(a: Mask, sq: nat, sk: nat, seqlenK: nat, i: int, j: int) {
    Rewrite(a, sq, sq, sk, seqlenK, false, 1, 1).Visible(i, j) <==> a.Allows(sq, sk, i, j)
  }

  /** The rewritten mask allows exactly what the call's mask allows, for every length up to the capacity. */
  ghost predicate MaskPreserved(a: Mask, sq: nat, seqlenK: nat) {
    forall sk: nat, i: nat, j: int :: sk <= seqlenK && i < sq ==> SameAt(a, sq, sk, seqlenK, i, j)
  }

  /** What a caller can check: in each case, whether the limit that is dropped or put in matters. */
  predicate RewriteSafe(a: Mask, sq: nat, seqlenK: nat) {
    var left, right := LeftLimit(a, seqlenK), RightLimit(a, sq);
    || seqlenK == 0
    || 0 <= right < seqlenK
    || (right < 0 && (left < 0 || sq <= seqlenK + 1))
    || (right >= seqlenK && (if left < 0 then sq <= right + 1 else right == seqlenK || sq <= seqlenK + 1))
  }

  /** The rewriting preserves the mask exactly when it is safe. */
  lemma RewriteExact(a: Mask, sq: nat, seqlenK: nat)
    requires sq > 0
    ensures MaskPreserved(a, sq, seqlenK) <==> RewriteSafe(a, sq, seqlenK)
  {
    if RewriteSafe(a, sq, seqlenK) {
      forall sk: nat, i: nat, j: int | sk <= seqlenK && i < sq
        ensures SameAt(a, sq, sk, seqlenK, i, j)
      {
      }
    } else if LeftLimit(a, seqlenK) < 0 {
      assert !SameAt(a, sq, seqlenK, seqlenK, 0, seqlenK - 1);
    } else {
      assert !SameAt(a, sq, seqlenK, seqlenK, sq - seqlenK - 2, seqlenK - 1);
    }
  }

  /**
   No more queries than the capacity and one, as in every decode and every prefill into its own
   cache: always safe.
   */
  lemma ShortQueriesSafe(a: Mask, sq: nat, seqlenK: nat)
    requires 0 < sq <= seqlenK + 1
    ensures MaskPreserved(a, sq, seqlenK)
  {
    RewriteExact(a, sq, seqlenK);
  }

  /** A window without a right limit and many more queries than keys: the limit put in hides a key. */
  lemma LongQueriesUnsafe()
    ensures !MaskPreserved(Mask(false, 0, -1), 4, 1)
  {
    RewriteExact(Mask(false, 0, -1), 4, 1);
  }

  /** The rows that a kernel launched with the rewritten mask attends with see exactly what the call's mask allows. */
  lemma KernelRowSeesCallMask(a: Mask, sq: nat, sk: nat, seqlenK: nat, fixed: bool, M: nat, N: nat, x: Kernel.Inputs,
                              i: nat, j: int)
    requires M > 0 && N > 0 && i < sq && sk <= seqlenK && RewriteSafe(a, sq, seqlenK)
    requires x.Valid(Rewrite(a, sq, sq, sk, seqlenK, fixed, M, N))
    ensures Kernel.RowOf(Rewrite(a, sq, sq, sk, seqlenK, fixed, M, N), x, i).Sees(j) <==> a.Allows(sq, sk, i, j)
  {
    RewriteExact(a, sq, seqlenK);
    assert SameAt(a, sq, sk, seqlenK, i, j);
  }

  // ----- Grouped query heads

  lemma HeadInRange(groups: nat, kvHeads: nat, g: int, k: int)
    requires 0 <= g < groups && 0 <= k < kvHeads
    ensures 0 <= k * groups + g < kvHeads * groups
    ensures (k * groups + g) / groups == k && (k * groups + g) % groups == g
  {
    MulMono(0, k, groups);
    MulMono(k + 1, kvHeads, groups);
    DistributeAdd(k, 1, groups);
    QuotientUnique(k * groups + g, groups, k);
  }

  /** The reshape and transpose before the launch: head `k * groups + g` becomes row `g` of head `k`. */
  function Swap<T>(q: seq<T>, groups: nat, kvHeads: nat): (s: seq<seq<T>>)
    requires |q| == kvHeads * groups
    ensures |s| == groups && forall g :: 0 <= g < groups ==> |s[g]| == kvHeads
  {
    seq(groups, g requires 0 <= g < groups =>
      seq(kvHeads, k requires 0 <= k < kvHeads => HeadInRange(groups, kvHeads, g, k); q[k * groups + g]))
  }

  lemma HeadSplit(groups: nat, kvHeads: nat, h: int)
    requires groups > 0 && 0 <= h < kvHeads * groups
    ensures 0 <= h % groups < groups && 0 <= h / groups < kvHeads && h / groups * groups + h % groups == h
  {
    DivMod(h, groups);
    QuotientBounds(h, groups);
    if h / groups >= kvHeads {
      MulMono(kvHeads, h / groups, groups);
    }
  }

  /** The transpose and reshape after the launch. */
  function Unswap<T>(s: seq<seq<T>>, groups: nat, kvHeads: nat): (o: seq<T>)
    requires groups > 0 && |s| == groups && forall g :: 0 <= g < groups ==> |s[g]| == kvHeads
    ensures |o| == kvHeads * groups
  {
    seq(kvHeads * groups, h requires 0 <= h < kvHeads * groups =>
      HeadSplit(groups, kvHeads, h); s[h % groups][h / groups])
  }

  /** The host swaps a single query with grouped heads and an open window. */
  predicate Swaps(a: Mask, sq: nat, heads: nat, kvHeads: nat) {
    sq == 1 && heads > kvHeads && a.left < 0 && RightLimit(a, sq) < 0
  }

  /** The keys that row `i` of a launch sees. */
  function KeysSeen(c: Config, i: int): seq<bool> {
    seq(c.sk, j => c.Visible(i, j))
  }

  /** The keys that query `i` of a call may see. */
  function KeysAllowed(a: Mask, sq: nat, sk: nat, i: int): seq<bool> {
    seq(sk, j => a.Allows(sq, sk, i, j))
  }

  /** Although its position is another, every row of a swapped launch sees the keys of the only query. */
  lemma SwappedRowSees(a: Mask, heads: nat, kvHeads: nat, rows: nat, sk: nat, seqlenK: nat, fixed: bool, M: nat, N: nat,
                       g: nat)
    requires M > 0 && N > 0 && Swaps(a, 1, heads, kvHeads)
    ensures KeysSeen(Rewrite(a, 1, rows, sk, seqlenK, fixed, M, N), g) == KeysAllowed(a, 1, sk, 0)
  {
  }

  /** Without the guard on the windows it would not: a left window counts from the row's position. */
  lemma SwapNeedsOpenWindow()
    ensures var a := Mask(false, 0, -1);
            !Swaps(a, 1, 2, 1) && KeysSeen(Rewrite(a, 1, 2, 2, 2, false, 16, 32), 0) != KeysAllowed(a, 1, 2, 0)
  {
    var a := Mask(false, 0, -1);
    assert KeysSeen(Rewrite(a, 1, 2, 2, 2, false, 16, 32), 0)[0] && !KeysAllowed(a, 1, 2, 0)[0];
  }

  /** The result of every query head, where a kernel gives head `bidh` the KV head `bidh / ratio`, and `vis` is seen. */
  function Heads<T, U>(q: seq<T>, ratio: nat, vis: seq<bool>, attend: (T, int, seq<bool>) -> U): (o: seq<U>)
    requires ratio > 0
    ensures |o| == |q|
  {
    seq(|q|, h requires 0 <= h < |q| => attend(q[h], h / ratio, vis))
  }

  /** The launch of the swapped call: row `g` of head `k` attends to KV head `k` with the keys that row `g` sees. */
  function SwappedLaunch<T, U>(s: seq<seq<T>>, c: Config, attend: (T, int, seq<bool>) -> U): (rows: seq<seq<U>>)
    ensures |rows| == |s| && forall g :: 0 <= g < |s| ==> rows[g] == Heads(s[g], 1, KeysSeen(c, g), attend)
  {
    seq(|s|, g requires 0 <= g < |s| => Heads(s[g], 1, KeysSeen(c, g), attend))
  }

  /**
   The swap is transparent: computing the groups as rows of `kvHeads` heads, each with its own KV
   head and its own row's mask, and swapping back gives every query head what it gets without the
   swap, when `groups` query heads share a KV head.
   */
  lemma SwapTransparent<T, U>(q: seq<T>, groups: nat, kvHeads: nat, a: Mask, sk: nat, seqlenK: nat, fixed: bool, M: nat,
                              N: nat, attend: (T, int, seq<bool>) -> U)
    requires groups > 0 && |q| == kvHeads * groups && M > 0 && N > 0 && Swaps(a, 1, |q|, kvHeads)
    ensures Unswap(Swap(q, groups, kvHeads), groups, kvHeads) == q
    ensures var c := Rewrite(a, 1, groups, sk, seqlenK, fixed, M, N);
            Unswap(SwappedLaunch(Swap(q, groups, kvHeads), c, attend), groups, kvHeads)
            == Heads(q, groups, KeysAllowed(a, 1, sk, 0), attend)
  {
    var s, c := Swap(q, groups, kvHeads), Rewrite(a, 1, groups, sk, seqlenK, fixed, M, N);
    var vis := KeysAllowed(a, 1, sk, 0);
    var rows := SwappedLaunch(s, c, attend);
    forall h | 0 <= h < |q|
      ensures Unswap(s, groups, kvHeads)[h] == q[h]
      ensures Unswap(rows, groups, kvHeads)[h] == Heads(q, groups, vis, attend)[h]
    {
      HeadSplit(groups, kvHeads, h);
      assert s[h % groups][h / groups] == q[h];
      SwappedRowSees(a, |q|, kvHeads, groups, sk, seqlenK, fixed, M, N, h % groups);
      assert rows[h % groups] == Heads(s[h % groups], 1, vis, attend);
    }
  }
}
