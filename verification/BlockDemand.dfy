/**
 Counting kvblocks (vattention/utils.h, vattention/vattention.cu): what requests need for their
 lengths, what they hold, and what the steps of the allocator demand together.
 */
module BlockDemand {
  import opened IntMath

  /** The sum of the first `n` counts. */
  function SumTo(s: seq<nat>, n: nat): nat
    requires n <= |s|
  {
    if n == 0 then 0 else SumTo(s, n - 1) + s[n - 1]
  }

  function Sum(s: seq<nat>): nat {
    SumTo(s, |s|)
  }

  lemma {:induction false} SumToUpdate(s: seq<nat>, n: nat, i: nat, v: nat)
    requires i < |s| && n <= |s|
    ensures SumTo(s[i := v], n) == SumTo(s, n) - (if i < n then s[i] else 0) + (if i < n then v else 0)
  {
    if n > 0 {
      SumToUpdate(s, n - 1, i, v);
    }
  }

  lemma SumUpdate(s: seq<nat>, i: nat, v: nat)
    requires i < |s|
    ensures Sum(s[i := v]) == Sum(s) - s[i] + v
  {
    SumToUpdate(s, |s|, i, v);
  }

  lemma {:induction false} SumToMono(s: seq<nat>, t: seq<nat>, n: nat)
    requires n <= |s| == |t| && forall i :: 0 <= i < n ==> s[i] <= t[i]
    ensures SumTo(s, n) <= SumTo(t, n)
  {
    if n > 0 {
      SumToMono(s, t, n - 1);
    }
  }

  lemma SumMono(s: seq<nat>, t: seq<nat>)
    requires |s| == |t| && forall i :: 0 <= i < |s| ==> s[i] <= t[i]
    ensures Sum(s) <= Sum(t)
  {
    SumToMono(s, t, |s|);
  }

  lemma {:induction false} SumZero(s: seq<nat>, n: nat)
    requires n <= |s| && forall i :: 0 <= i < |s| ==> s[i] == 0
    ensures SumTo(s, n) == 0
  {
    if n > 0 {
      SumZero(s, n - 1);
    }
  }

  function TokensToPages(tokens: nat, tokensPerPage: nat): nat
    requires tokensPerPage > 0
  {
    CeilNat(tokens, tokensPerPage)
  }

  /** The pages behind `tokens` tokens hold them, and one page less would not. */
  lemma TokensToPagesExact(tokens: nat, tokensPerPage: nat)
    requires tokensPerPage > 0
    ensures var n := TokensToPages(tokens, tokensPerPage);
            && tokens <= n * tokensPerPage
            && (n > 0 ==> (n - 1) * tokensPerPage < tokens)
            && (tokens == 0 <==> n == 0)
  {
    var n := TokensToPages(tokens, tokensPerPage);
    QuotientBounds(tokens + tokensPerPage - 1, tokensPerPage);
    DistributeAdd(n, 1, tokensPerPage);
    DistributeSub(n, 1, tokensPerPage);
    if n > 0 {
      MulMono(1, n, tokensPerPage);
    }
  }

  /** The number of pages in `blocks` kvblocks. */
  function PagesOf(blocks: nat, pagesPerKvblock: nat): nat {
    if blocks == 0 then 0 else pagesPerKvblock + PagesOf(blocks - 1, pagesPerKvblock)
  }

  lemma {:induction false} PagesOfIsProduct(blocks: nat, pagesPerKvblock: nat)
    ensures PagesOf(blocks, pagesPerKvblock) == blocks * pagesPerKvblock
  {
    if blocks > 0 {
      PagesOfIsProduct(blocks - 1, pagesPerKvblock);
      DistributeAdd(blocks - 1, 1, pagesPerKvblock);
    }
  }

  // ----- What a step demands

  /** The kvblocks of every request when request `k` is served in a step: those before it have been
      served, those after it keep what they hold. */
  function StageDemand(held: seq<nat>, needs: seq<nat>, maxPages: nat, k: nat): (d: seq<nat>)
    requires |held| == |needs|
    ensures |d| == |held| && forall r {:trigger d[r]} :: 0 <= r < |held| ==>
              d[r] == if r < k then Min(needs[r], maxPages) else if r == k then needs[r] else held[r]
  {
    seq(|held|, r requires 0 <= r < |held| =>
      if r < k then Min(needs[r], maxPages) else if r == k then needs[r] else held[r])
  }

  /** The first `n` stages fit. */
  ghost predicate StagesFitUpTo(held: seq<nat>, needs: seq<nat>, maxPages: nat, total: nat, n: nat)
    requires |held| == |needs|
  {
    forall k :: 0 <= k < n <= |held| ==> Sum(StageDemand(held, needs, maxPages, k)) <= total
  }

  ghost predicate StagesFit(held: seq<nat>, needs: seq<nat>, maxPages: nat, total: nat)
    requires |held| == |needs|
  {
    StagesFitUpTo(held, needs, maxPages, total, |held|)
  }

  /** When no request gives anything up, serving them one by one succeeds exactly when all fit together. */
  lemma GrowingStagesFit(held: seq<nat>, needs: seq<nat>, maxPages: nat, total: nat)
    requires |held| == |needs| && Sum(held) <= total
    requires forall r :: 0 <= r < |held| ==> held[r] <= needs[r] <= maxPages
    ensures StagesFit(held, needs, maxPages, total) <==> Sum(needs) <= total
  {
    if |held| == 0 {
      assert needs == held;
    } else {
      var last := StageDemand(held, needs, maxPages, |held| - 1);
      assert last == needs;
    }
    if Sum(needs) <= total {
      forall k | 0 <= k < |held|
        ensures Sum(StageDemand(held, needs, maxPages, k)) <= total
      {
        SumMono(StageDemand(held, needs, maxPages, k), needs);
      }
    }
  }

  /** Otherwise a step can fail although all requests fit together: one shrinks after another has grown. */
  lemma ShrinkingStageFails()
    ensures Sum([8, 2]) <= 10 && Sum([2, 8]) <= 10
    ensures !StagesFit([2, 8], [8, 2], 16, 10)
  {
    assert StageDemand([2, 8], [8, 2], 16, 0) == [8, 8];
    assert SumTo([8, 8], 2) == SumTo([8, 8], 1) + 8;
    assert SumTo([8, 2], 2) == SumTo([8, 2], 1) + 2;
    assert SumTo([2, 8], 2) == SumTo([2, 8], 1) + 8;
  }

  /** What everyone holds after the first `k` requests have been served. */
  function Served(held: seq<nat>, needs: seq<nat>, maxPages: nat, k: nat): (d: seq<nat>)
    requires |held| == |needs|
    ensures |d| == |held| && forall r {:trigger d[r]} :: 0 <= r < |held| ==>
              d[r] == if r < k then Min(needs[r], maxPages) else held[r]
  {
    seq(|held|, r requires 0 <= r < |held| => if r < k then Min(needs[r], maxPages) else held[r])
  }

  /** Serving one request more. */
  lemma ServeNext(held: seq<nat>, needs: seq<nat>, maxPages: nat, k: nat)
    requires |held| == |needs| && k < |held|
    ensures Served(held, needs, maxPages, k)[k := needs[k]] == StageDemand(held, needs, maxPages, k)
    ensures Served(held, needs, maxPages, k)[k := Min(needs[k], maxPages)] == Served(held, needs, maxPages, k + 1)
  {
  }

  /** Every request has what it needs, up to the end of its range. */
  ghost predicate Covered(mapped: seq<nat>, needs: seq<nat>, maxPages: nat) {
    |mapped| == |needs| && forall r {:trigger needs[r]} :: 0 <= r < |needs| ==> mapped[r] >= Min(needs[r], maxPages)
  }

  /** The smaller of two counts for every request. */
  function Both(a: seq<nat>, b: seq<nat>): (d: seq<nat>)
    requires |a| == |b|
    ensures |d| == |a| && forall r {:trigger d[r]} :: 0 <= r < |a| ==> d[r] == Min(a[r], b[r])
  {
    seq(|a|, r requires 0 <= r < |a| => Min(a[r], b[r]))
  }

  lemma ServedCovers(mapped: seq<nat>, held: seq<nat>, needs: seq<nat>, maxPages: nat)
    requires |held| == |needs| == |mapped| && Both(mapped, needs) == Served(held, needs, maxPages, |held|)
    ensures Covered(mapped, needs, maxPages)
  {
    forall r | 0 <= r < |needs|
      ensures mapped[r] >= Min(needs[r], maxPages)
    {
      assert Both(mapped, needs)[r] == Served(held, needs, maxPages, |held|)[r];
    }
  }

  lemma StageNext(held: seq<nat>, needs: seq<nat>, maxPages: nat, total: nat, k: nat, next: nat)
    requires |held| == |needs| && k < |held| && next == k + 1 && StagesFitUpTo(held, needs, maxPages, total, k)
    ensures if Sum(StageDemand(held, needs, maxPages, k)) <= total
            then StagesFitUpTo(held, needs, maxPages, total, next) else !StagesFit(held, needs, maxPages, total)
  {
  }

  /** `held`, with no more than `v` for request `k`. */
  function Lowered(held: seq<nat>, k: nat, v: nat): (d: seq<nat>)
    requires k < |held|
    ensures |d| == |held|
  {
    held[k := if held[k] < v then held[k] else v]
  }

  /** What is needed before and after is never more than what is held on the way. */
  lemma BothBelowServed(held: seq<nat>, needs: seq<nat>, maxPages: nat, k: nat)
    requires |held| == |needs| && k < |held| && forall r :: 0 <= r < |held| ==> held[r] <= maxPages
    ensures var d := Lowered(Served(held, needs, maxPages, k), k, needs[k]);
            forall r :: 0 <= r < |held| ==> Both(held, needs)[r] <= d[r]
  {
  }

  lemma BelowServed(held: seq<nat>, needs: seq<nat>, maxPages: nat, k: nat)
    requires |held| == |needs| && forall r :: 0 <= r < |held| ==> held[r] <= maxPages && held[r] <= needs[r]
    ensures forall r :: 0 <= r < |held| ==> held[r] <= Served(held, needs, maxPages, k)[r]
  {
  }

  /** The first `k` requests have nothing mapped if their length is zero. */
  ghost predicate Drained(mapped: seq<nat>, lens: seq<nat>, k: nat) {
    |mapped| == |lens| && forall r :: 0 <= r < k <= |lens| && lens[r] == 0 ==> mapped[r] == 0
  }

  lemma DrainedNext(before: seq<nat>, after: seq<nat>, lens: seq<nat>, k: nat, next: nat)
    requires Drained(before, lens, k) && |after| == |before| && k < |lens| && next == k + 1
            && (lens[k] == 0 ==> after[k] == 0)
    requires forall r :: 0 <= r < |lens| && r != k ==> after[r] <= before[r]
    ensures Drained(after, lens, next)
  {
    forall r | 0 <= r < next && lens[r] == 0
      ensures after[r] == 0
    {
      assert r != k ==> after[r] <= before[r];
    }
  }

  /** What is held after request `r` was grown towards its need. */
  lemma HeldAfterGrow(mapped: seq<nat>, needs: seq<nat>, r: nat, maxPages: nat)
    requires |mapped| == |needs| && r < |mapped| && mapped[r] <= needs[r]
    ensures Both(mapped[r := Min(needs[r], maxPages)], needs) == Both(mapped, needs)[r := Min(needs[r], maxPages)]
  {
  }

  /** The first `k` counts of `front`, then those of `back`. */
  function Spliced(front: seq<nat>, back: seq<nat>, k: nat): (d: seq<nat>)
    requires |front| == |back|
    ensures |d| == |front| && forall r {:trigger d[r]} :: 0 <= r < |d| ==> d[r] == if r < k then front[r] else back[r]
  {
    seq(|front|, r requires 0 <= r < |front| => if r < k then front[r] else back[r])
  }

  lemma SplicedNext(lens: seq<nat>, before: seq<nat>, k: nat, next: nat)
    requires |lens| == |before| && k < |lens| && next == k + 1
    ensures Spliced(lens, before, k)[k := lens[k]] == Spliced(lens, before, next)
    ensures Spliced(lens, before, 0) == before && Spliced(lens, before, |lens|) == lens
  {
  }

  function Needs(lens: seq<nat>, tokensPerPage: nat): (n: seq<nat>)
    requires tokensPerPage > 0
    ensures |n| == |lens| && forall r {:trigger n[r]} :: 0 <= r < |lens| ==>
            n[r] == TokensToPages(lens[r], tokensPerPage)
  {
    seq(|lens|, r requires 0 <= r < |lens| => TokensToPages(lens[r], tokensPerPage))
  }

  /** Where a reclaim for `n` kvblocks stops, coming down from request `r`. */
  function StopFrom(mapped: seq<nat>, held: seq<nat>, n: nat, total: nat, r: nat): (stop: nat)
    requires |mapped| == |held|
    ensures stop <= r
  {
    if r == 0 || Sum(Spliced(mapped, held, r)) + n <= total then r else StopFrom(mapped, held, n, total, r - 1)
  }

  /** What is mapped after a reclaim for `n` kvblocks. */
  function AfterReclaim(mapped: seq<nat>, held: seq<nat>, n: nat, total: nat): (m: seq<nat>)
    requires |mapped| == |held|
    ensures |m| == |mapped|
  {
    Spliced(mapped, held, StopFrom(mapped, held, n, total, |mapped|))
  }

  // ----- Looking ahead

  /** `need_new_page_async`: the kvblocks a request lacks for `steps` more tokens. */
  function Ask(mapped: nat, len: nat, steps: nat, maxPages: nat, tokensPerPage: nat): nat
    requires tokensPerPage > 0
  {
    if len == 0 || mapped == maxPages then 0
    else
      var need := TokensToPages(len + steps, tokensPerPage);
      if need <= mapped then 0 else need - mapped
  }

  function Asks(mapped: seq<nat>, lens: seq<nat>, steps: nat, maxPages: nat, tokensPerPage: nat): (a: seq<nat>)
    requires tokensPerPage > 0 && |mapped| == |lens|
    ensures |a| == |mapped|
    ensures forall r {:trigger a[r]} :: 0 <= r < |a| ==> a[r] == Ask(mapped[r], lens[r], steps, maxPages, tokensPerPage)
  {
    seq(|mapped|, r requires 0 <= r < |mapped| => Ask(mapped[r], lens[r], steps, maxPages, tokensPerPage))
  }

  /** What every active request needs for its next token. */
  function NextNeeds(lens: seq<nat>, tokensPerPage: nat): (n: seq<nat>)
    requires tokensPerPage > 0
    ensures |n| == |lens| && forall r {:trigger n[r]} :: 0 <= r < |n| ==>
              n[r] == if lens[r] == 0 then 0 else TokensToPages(lens[r] + 1, tokensPerPage)
  {
    seq(|lens|, r requires 0 <= r < |lens| => if lens[r] == 0 then 0 else TokensToPages(lens[r] + 1, tokensPerPage))
  }

  ghost predicate Grown(before: seq<nat>, after: seq<nat>) {
    |before| == |after| && forall r {:trigger after[r]} :: 0 <= r < |before| ==> before[r] <= after[r]
  }

  /** When more is mapped, no less is held, and never more than is mapped. */
  lemma HeldGrows(before: seq<nat>, after: seq<nat>, needs: seq<nat>)
    requires |before| == |needs| && Grown(before, after)
    ensures Grown(Both(before, needs), Both(after, needs)) && Grown(Both(after, needs), after)
  {
  }

  /** Requests were grown, if at all, towards what their next `steps` tokens need; inactive ones were not. */
  ghost predicate Ahead(before: seq<nat>, after: seq<nat>, lens: seq<nat>, steps: nat, tokensPerPage: nat)
    requires tokensPerPage > 0
  {
    |before| == |after| == |lens| && forall r {:trigger after[r]} :: 0 <= r < |after| ==>
      (after[r] == before[r] || (lens[r] != 0 && before[r] < after[r] <= TokensToPages(lens[r] + steps, tokensPerPage)))
  }

  lemma TokensToPagesMono(a: nat, b: nat, tokensPerPage: nat)
    requires tokensPerPage > 0 && a <= b
    ensures TokensToPages(a, tokensPerPage) <= TokensToPages(b, tokensPerPage)
  {
    var m, n := TokensToPages(a, tokensPerPage), TokensToPages(b, tokensPerPage);
    TokensToPagesExact(a, tokensPerPage);
    TokensToPagesExact(b, tokensPerPage);
    if n < m {
      MulMono(n, m - 1, tokensPerPage);
    }
  }

  lemma AheadChain(a: seq<nat>, b: seq<nat>, c: seq<nat>, lens: seq<nat>, first: nat, second: nat, steps: nat,
                   tokensPerPage: nat)
    requires tokensPerPage > 0 && Ahead(a, b, lens, first, tokensPerPage) && Ahead(b, c, lens, second, tokensPerPage)
    requires first <= steps && second <= steps
    ensures Ahead(a, c, lens, steps, tokensPerPage)
  {
    forall r | 0 <= r < |c|
      ensures c[r] == a[r] || (lens[r] != 0 && a[r] < c[r] <= TokensToPages(lens[r] + steps, tokensPerPage))
    {
      TokensToPagesMono(lens[r] + first, lens[r] + steps, tokensPerPage);
      TokensToPagesMono(lens[r] + second, lens[r] + steps, tokensPerPage);
      assert b[r] == a[r] || (lens[r] != 0 && a[r] < b[r] <= TokensToPages(lens[r] + first, tokensPerPage));
    }
  }

  /** Taking kvblocks away never lowers what is asked for. */
  lemma AsksAntitone(less: seq<nat>, more: seq<nat>, lens: seq<nat>, steps: nat, maxPages: nat, tokensPerPage: nat)
    requires tokensPerPage > 0 && |more| == |lens| && Grown(less, more)
    requires forall r :: 0 <= r < |more| ==> more[r] <= maxPages
    ensures Sum(Asks(more, lens, steps, maxPages, tokensPerPage))
            <= Sum(Asks(less, lens, steps, maxPages, tokensPerPage))
  {
    SumMono(Asks(more, lens, steps, maxPages, tokensPerPage), Asks(less, lens, steps, maxPages, tokensPerPage));
  }

  lemma {:induction false} SumToAdd(a: seq<nat>, b: seq<nat>, c: seq<nat>, n: nat)
    requires n <= |a| == |b| == |c| && forall r :: 0 <= r < |a| ==> a[r] + b[r] <= c[r]
    ensures SumTo(a, n) + SumTo(b, n) <= SumTo(c, n)
  {
    if n > 0 {
      SumToAdd(a, b, c, n - 1);
    }
  }

  /** No request asks for more than is left of its range; one whose range is full asks for nothing. */
  ghost predicate AsksInRange(mapped: seq<nat>, asks: seq<nat>, maxPages: nat)
    requires |mapped| == |asks|
  {
    forall r :: 0 <= r < |mapped| ==> mapped[r] + asks[r] <= maxPages
  }

  /** If everything asked for was given on top of `before`, it fits. */
  lemma CoveredMeansFits(before: seq<nat>, after: seq<nat>, lens: seq<nat>, maxPages: nat, tokensPerPage: nat)
    requires tokensPerPage > 0 && |before| == |lens| && Grown(before, after)
    requires Covered(after, NextNeeds(lens, tokensPerPage), maxPages)
    requires AsksInRange(before, Asks(before, lens, 1, maxPages, tokensPerPage), maxPages)
    ensures Sum(before) + Sum(Asks(before, lens, 1, maxPages, tokensPerPage)) <= Sum(after)
  {
    var asks, next := Asks(before, lens, 1, maxPages, tokensPerPage), NextNeeds(lens, tokensPerPage);
    forall r | 0 <= r < |before|
      ensures before[r] + asks[r] <= after[r]
    {
      assert next[r] <= maxPages || asks[r] == 0;
      assert after[r] >= before[r];
    }
    SumToAdd(before, asks, after, |before|);
  }

  lemma {:induction false} SumToGrows(s: seq<nat>, m: nat, n: nat)
    requires m <= n <= |s|
    ensures SumTo(s, m) <= SumTo(s, n)
    decreases n
  {
    if m < n {
      SumToGrows(s, m, n - 1);
    }
  }

  /** In a first round that fits, when `r` requests have been asked: they have what they need, the rest still fits. */
  ghost predicate RoundFits(was: seq<nat>, lens: seq<nat>, maxPages: nat, tokensPerPage: nat, total: nat,
                            mapped: seq<nat>, r: nat)
    requires tokensPerPage > 0 && |was| == |lens|
  {
    var asks := Asks(was, lens, 1, maxPages, tokensPerPage);
    && |mapped| == |was| && r <= |was|
    && (forall q :: r <= q < |was| ==> mapped[q] == was[q])
    && (forall q :: 0 <= q < r ==> mapped[q] >= Min(NextNeeds(lens, tokensPerPage)[q], maxPages))
    && Sum(mapped) + Sum(asks) - SumTo(asks, r) <= total
  }

  lemma RoundNext(was: seq<nat>, lens: seq<nat>, maxPages: nat, tokensPerPage: nat, total: nat, mapped: seq<nat>,
                  r: nat, n: nat)
    requires tokensPerPage > 0 && |was| == |lens| && r < |was| && was[r] <= maxPages
    requires RoundFits(was, lens, maxPages, tokensPerPage, total, mapped, r)
    requires n == Ask(mapped[r], lens[r], 1, maxPages, tokensPerPage)
    ensures Sum(mapped) + n <= total
    ensures RoundFits(was, lens, maxPages, tokensPerPage, total, mapped[r := Min(mapped[r] + n, maxPages)], r + 1)
  {
    var asks := Asks(was, lens, 1, maxPages, tokensPerPage);
    assert n == asks[r];
    SumToGrows(asks, r + 1, |asks|);
    SumUpdate(mapped, r, Min(mapped[r] + n, maxPages));
  }

  lemma CoveredGrows(before: seq<nat>, after: seq<nat>, needs: seq<nat>, maxPages: nat)
    requires Grown(before, after)
    ensures Covered(before, needs, maxPages) ==> Covered(after, needs, maxPages)
  {
  }

  /** An inactive request, not the first one, that has kvblocks mapped. */
  ghost predicate Spare(mapped: seq<nat>, lens: seq<nat>, r: int)
    requires |mapped| == |lens| && 0 <= r < |lens|
  {
    lens[r] == 0 && mapped[r] > 0 && exists q :: 0 <= q < r && lens[q] == 0
  }

  /** One kvblock of the last spare request was taken, or none if reclaim is deferred or nothing is spare. */
  ghost predicate TookOneSpare(before: seq<nat>, lens: seq<nat>, deferred: bool, victim: int, after: seq<nat>) {
    && |before| == |lens|
    && if victim == -1 then
         after == before && (deferred || forall r :: 0 <= r < |lens| ==> !Spare(before, lens, r))
       else
         && 0 <= victim < |lens| && !deferred && Spare(before, lens, victim)
         && (forall r :: victim < r < |lens| ==> !Spare(before, lens, r))
         && after == before[victim := before[victim] - 1]
  }

  /** What is mapped once `n` kvblocks have been made free, as far as possible. */
  function AfterRoom(mapped: seq<nat>, held: seq<nat>, n: nat, total: nat): (m: seq<nat>)
    requires |mapped| == |held|
    ensures |m| == |mapped|
  {
    if Sum(mapped) + n <= total then mapped else AfterReclaim(mapped, held, n, total)
  }

  /**
   What the background manager achieves: every active request has its next token's kvblock if,
   once room was made for what was asked for, everything that is asked for then fits; and only
   then, when nothing is asked for beyond the end of a range.
   */
  ghost predicate LookedAhead(was: seq<nat>, held: seq<nat>, lens: seq<nat>, maxPages: nat, tokensPerPage: nat,
                              total: nat, mapped: seq<nat>)
    requires tokensPerPage > 0 && |was| == |held| == |lens|
  {
    var m := AfterRoom(was, held, Sum(Asks(was, lens, 1, maxPages, tokensPerPage)), total);
    var asks, next := Asks(m, lens, 1, maxPages, tokensPerPage), NextNeeds(lens, tokensPerPage);
    && (Sum(m) + Sum(asks) <= total ==> Covered(mapped, next, maxPages))
    && (AsksInRange(m, asks, maxPages) && Covered(mapped, next, maxPages) ==> Sum(m) + Sum(asks) <= total)
  }

  lemma LookedAheadGrown(was: seq<nat>, held: seq<nat>, lens: seq<nat>, maxPages: nat, tokensPerPage: nat, total: nat,
                         m: seq<nat>, mapped: seq<nat>)
    requires tokensPerPage > 0 && |was| == |held| == |lens|
    requires m == AfterRoom(was, held, Sum(Asks(was, lens, 1, maxPages, tokensPerPage)), total)
    requires Grown(m, mapped) && Sum(mapped) <= total
    requires Sum(m) + Sum(Asks(m, lens, 1, maxPages, tokensPerPage)) <= total ==>
               Covered(mapped, NextNeeds(lens, tokensPerPage), maxPages)
    ensures LookedAhead(was, held, lens, maxPages, tokensPerPage, total, mapped)
  {
    var asks, next := Asks(m, lens, 1, maxPages, tokensPerPage), NextNeeds(lens, tokensPerPage);
    if Covered(mapped, next, maxPages) && AsksInRange(m, asks, maxPages) {
      CoveredMeansFits(m, mapped, lens, maxPages, tokensPerPage);
    }
  }

  lemma SumOfThree(s: seq<nat>)
    requires |s| == 3
    ensures Sum(s) == s[0] + s[1] + s[2]
  {
    assert SumTo(s, 1) == s[0];
    assert SumTo(s, 2) == s[0] + s[1];
  }

  /** Three requests, two with two tokens of two per page, and four kvblocks that are all mapped. */
  lemma LookAheadCase(lens: seq<nat>, mapped: seq<nat>, held: seq<nat>, m: seq<nat>)
    requires lens == [0, 2, 2] && mapped == [1, 2, 1] && held == Both(mapped, Needs(lens, 2)) && m == [1, 1, 1]
    ensures held == [0, 1, 1] && NextNeeds(lens, 2) == [0, 2, 2]
    ensures Asks(mapped, lens, 1, 8, 2) == [0, 0, 1] && Asks(m, lens, 1, 8, 2) == [0, 1, 1]
  {
    QuotientUnique(1, 2, 0);
    QuotientUnique(3, 2, 1);
    QuotientUnique(4, 2, 2);
  }

  lemma ReclaimCase(mapped: seq<nat>, held: seq<nat>)
    requires mapped == [1, 2, 1] && held == [0, 1, 1]
    ensures Sum(mapped) == 4 && AfterReclaim(mapped, held, 1, 4) == [1, 1, 1]
  {
    assert Spliced(mapped, held, 3) == Spliced(mapped, held, 2) == mapped;
    assert Spliced(mapped, held, 1) == [1, 1, 1];
    SumOfThree(mapped);
    SumOfThree([1, 1, 1]);
    assert StopFrom(mapped, held, 1, 4, 3) == StopFrom(mapped, held, 1, 4, 2) == StopFrom(mapped, held, 1, 4, 1) == 1;
  }

  /**
   Looking ahead can fail although all next tokens fit: the reclaim takes from request 1 what it
   has for its next token, request 1 asks for it again, and nothing is left for request 2. Whatever
   the manager then leaves mapped, some next token is not covered.
   */
  lemma LookAheadFails(left: seq<nat>)
    requires LookedAhead([1, 2, 1], Both([1, 2, 1], Needs([0, 2, 2], 2)), [0, 2, 2], 8, 2, 4, left)
    ensures Sum([1, 2, 1]) == Sum(NextNeeds([0, 2, 2], 2)) == 4 && !Covered(left, NextNeeds([0, 2, 2], 2), 8)
  {
    var lens, mapped, m := [0, 2, 2], [1, 2, 1], [1, 1, 1];
    var held := Both(mapped, Needs(lens, 2));
    LookAheadCase(lens, mapped, held, m);
    ReclaimCase(mapped, held);
    SumOfThree([0, 0, 1]);
    SumOfThree([0, 1, 1]);
    SumOfThree([0, 2, 2]);
    SumOfThree(m);
    assert AfterRoom(mapped, held, 1, 4) == m;
  }
}
