/**
 The vAttention allocator (vattention/vattention.cu): physical pages are mapped behind the KV
 cache of each request as its sequence grows, and taken back when they run short. All layers of
 a request's next page are mapped or unmapped together; that unit is a kvblock.
 */
module Allocator {
  import opened IntMath
  import opened PagePool
  import opened BlockDemand

  // ----- Batch ids

  ghost predicate FirstInactive(lens: seq<nat>, f: nat) {
    f < |lens| && lens[f] == 0 && forall r :: 0 <= r < f ==> lens[r] != 0
  }

  /** An inactive request with enough kvblocks mapped. */
  predicate Fits(mapped: seq<nat>, lens: seq<nat>, need: nat, r: nat)
    requires |mapped| == |lens| && r < |lens|
  {
    lens[r] == 0 && mapped[r] >= need
  }

  /** `id` is inactive and, if any inactive request has enough mapped, has enough and no more than any such. */
  ghost predicate BestFit(mapped: seq<nat>, lens: seq<nat>, need: nat, id: nat)
    requires |mapped| == |lens| && id < |lens|
  {
    && lens[id] == 0
    && forall r :: 0 <= r < |lens| && Fits(mapped, lens, need, r) ==>
         Fits(mapped, lens, need, id) && mapped[id] <= mapped[r]
  }

  /**
   Two inactive requests of which only the second has the one kvblock that is needed: the first
   inactive one, which is then chosen, is not a best fit.
   */
  lemma NotBestFit()
    ensures FirstInactive([0, 0], 0) && !Fits([0, 1], [0, 0], 1, 0) && Fits([0, 1], [0, 0], 1, 1)
    ensures !BestFit([0, 1], [0, 0], 1, 0)
  {
    assert Fits([0, 1], [0, 0], 1, 1);
  }

  class Manager {
    const layout: Layout
    const tokensPerPage: nat
    const batch: nat

    var pages: seq<Page>       // cuda_pages
    var pagemap: PageMap       // cuda_pagemap
    var mapped: seq<nat>       // mapped_pages: kvblocks of each request
    var seqLens: seq<nat>      // curr_seq_lengths
    var deferred: bool         // deferred_reclaim

    ghost var reserved: set<Page>
    ghost var total: nat       // kvblocks that were ever reserved

    function Need(tokens: nat): nat
      requires tokensPerPage > 0
    {
      TokensToPages(tokens, tokensPerPage)
    }

    /** `pages_to_kvblocks(get_num_free_pages())`. */
    function FreeBlocks(): nat
      requires layout.Valid()
      reads this
    {
      QuotientBounds(|pages|, layout.PagesPerKvblock());
      |pages| / layout.PagesPerKvblock()
    }

    ghost predicate Shape()
      reads this
    {
      && layout.Valid() && tokensPerPage > 0
      && |mapped| == |seqLens| == batch
      && forall r :: 0 <= r < batch ==> mapped[r] <= layout.maxPages
    }

    /** The kvblocks that are not mapped. */
    ghost function Free(): nat
      requires Sum(mapped) <= total
      reads this
    {
      total - Sum(mapped)
    }

    /**
     Every reserved page is in exactly one place, the page map has exactly the keys of the mapped
     kvblocks, the pool holds whole kvblocks, and no kvblock is lost.
     */
    ghost predicate Valid()
      reads this
    {
      && Shape()
      && Partition(pages, pagemap, reserved)
      && KeysExact(layout, pagemap, mapped, 0, 0, 0)
      && Sum(mapped) <= total
      && |pages| == PagesOf(Free(), layout.PagesPerKvblock())
    }

    /** What the pool size is taken for is exactly what is free: the division loses nothing. */
    lemma FreeExact()
      requires Valid()
      ensures FreeBlocks() == Free()
    {
      PagesOfIsProduct(Free(), layout.PagesPerKvblock());
      DistributeAdd(Free(), 1, layout.PagesPerKvblock());
      QuotientUnique(|pages|, layout.PagesPerKvblock(), Free());
    }

    /** How many of each request's kvblocks its current length needs: what a reclaim leaves it. */
    function Held(): (h: seq<nat>)
      requires Shape()
      reads this
      ensures |h| == batch
    {
      Both(mapped, Needs(seqLens, tokensPerPage))
    }

    constructor (layers: nat, pageSize: nat, tokensPerPage: nat, maxContext: nat, batch: nat)
      requires layers > 0 && pageSize > 0 && tokensPerPage > 0
      ensures Valid() && this.batch == batch && this.tokensPerPage == tokensPerPage
      ensures layout == Layout(layers, pageSize, Need(maxContext))
      ensures pages == [] && pagemap == map[] && total == 0
      ensures mapped == seq(batch, _ => 0) && seqLens == seq(batch, _ => 0) && deferred
    {
      this.layout := Layout(layers, pageSize, TokensToPages(maxContext, tokensPerPage));
      this.tokensPerPage := tokensPerPage;
      this.batch := batch;
      pages, pagemap := [], map[];
      mapped, seqLens := seq(batch, _ => 0), seq(batch, _ => 0);
      deferred := true;
      reserved, total := {}, 0;
      new;
      SumZero(mapped, batch);
    }

    // ----- One mapping

    /** `pop_cuda_page`: the last page, or the error of an empty pool. */
    method Pop() returns (ok: bool, page: Page)
      modifies this`pages
      ensures ok <==> old(pages) != []
      ensures if ok then pages + [page] == old(pages) else pages == old(pages)
    {
      if |pages| == 0 {
        return false, 0;
      }
      ok, page := true, pages[|pages| - 1];
      pages := pages[..|pages| - 1];
    }

    /** `MAP_PAGES`: two pages of the pool for a key, or the error of a pool that ran empty. */
    method MapPages(key: Key) returns (ok: bool)
      modifies this`pages, this`pagemap
      ensures ok <==> old(|pages|) >= 2
      ensures if ok then TookTwo(old(pages), old(pagemap), key, pages, pagemap)
              else pages == [] && pagemap == old(pagemap)
    {
      var k: Page, v: Page;
      ok, k := Pop();
      if !ok {
        return;
      }
      ok, v := Pop();
      if !ok {
        return;
      }
      pagemap := pagemap[key := (k, v)];
    }

    /** `UNMAP_PAGES` for a key that is mapped. */
    method UnmapPages(key: Key)
      requires key in pagemap
      modifies this`pages, this`pagemap
      ensures GaveBack(old(pages), old(pagemap), key, pages, pagemap)
    {
      var entry := pagemap[key];
      pages := pages + [entry.0];
      pages := pages + [entry.1];
      pagemap := pagemap - {key};
    }

    /** Maps the next layer of a request's next kvblock. */
    method MapLayer(r: nat, layer: nat)
      requires layout.Valid() && r < |mapped| && layer < layout.layers && |pages| >= 2
      requires Partition(pages, pagemap, reserved) && KeysExact(layout, pagemap, mapped, r, 0, layer)
      modifies this`pages, this`pagemap
      ensures Partition(pages, pagemap, reserved) && KeysExact(layout, pagemap, mapped, r, 0, layer + 1)
      ensures |pages| == old(|pages|) - 2 && Extends(old(pagemap), pagemap)
    {
      var key := layout.KeyOf(r, mapped[r], layer);
      AddLayer(layout, pagemap, mapped, r, layer, (pages[|pages| - 1], pages[|pages| - 2]));
      MapKeepsPartition(pages, pagemap, reserved, key);
      var _ := MapPages(key);
    }

    /** Unmaps the next layer of a request's last kvblock; `full` does not count that kvblock any more. */
    method UnmapLayer(r: nat, layer: nat, ghost full: seq<nat>)
      requires layout.Valid() && r < |mapped| && mapped[r] > 0 && full == mapped[r := mapped[r] - 1]
      requires layer < layout.layers
      requires Partition(pages, pagemap, reserved) && KeysExact(layout, pagemap, full, r, layer, layout.layers)
      modifies this`pages, this`pagemap
      ensures Partition(pages, pagemap, reserved) && KeysExact(layout, pagemap, full, r, layer + 1, layout.layers)
      ensures |pages| == old(|pages|) + 2 && Extends(pagemap, old(pagemap))
    {
      var key := layout.KeyOf(r, mapped[r] - 1, layer);
      RemoveLayer(layout, pagemap, full, r, layer);
      UnmapKeepsPartition(pages, pagemap, reserved, key);
      UnmapPages(key);
    }

    // ----- One kvblock

    /** Maps a request's next kvblock in every layer. The pool cannot run empty midway. */
    method MapBlock(r: nat)
      requires Valid() && r < batch && Free() > 0 && mapped[r] < layout.maxPages
      modifies this`pages, this`pagemap, this`mapped
      ensures Valid() && mapped == old(mapped)[r := old(mapped[r]) + 1]
      ensures Extends(old(pagemap), pagemap)
    {
      NoPartialBlock(layout, pagemap, mapped, 0, 0, r, 0);
      var layer := 0;
      while layer < layout.layers
        invariant layer <= layout.layers && mapped == old(mapped)
        invariant Partition(pages, pagemap, reserved) && KeysExact(layout, pagemap, mapped, r, 0, layer)
        invariant |pages| == old(|pages|) - 2 * layer
        invariant Extends(old(pagemap), pagemap)
      {
        MapLayer(r, layer);
        layer := layer + 1;
      }
      BlockCompleted(layout, pagemap, mapped, r);
      SumUpdate(mapped, r, mapped[r] + 1);
      mapped := mapped[r := mapped[r] + 1];
    }

    /** The layer loop of `unmap_req_page_one`. */
    method UnmapLayers(r: nat, ghost full: seq<nat>)
      requires layout.Valid() && r < |mapped| && mapped[r] > 0 && full == mapped[r := mapped[r] - 1]
      requires Partition(pages, pagemap, reserved) && KeysExact(layout, pagemap, full, r, 0, layout.layers)
      modifies this`pages, this`pagemap
      ensures Partition(pages, pagemap, reserved)
      ensures KeysExact(layout, pagemap, full, r, layout.layers, layout.layers)
      ensures |pages| == old(|pages|) + layout.PagesPerKvblock() && Extends(pagemap, old(pagemap))
    {
      var layer := 0;
      while layer < layout.layers
        invariant layer <= layout.layers
        invariant Partition(pages, pagemap, reserved)
        invariant KeysExact(layout, pagemap, full, r, layer, layout.layers)
        invariant |pages| == old(|pages|) + 2 * layer && Extends(pagemap, old(pagemap))
      {
        UnmapLayer(r, layer, full);
        layer := layer + 1;
      }
    }

    /** `unmap_req_page_one`: unmaps a request's last kvblock in every layer. */
    method UnmapBlock(r: nat)
      requires Valid() && r < batch && mapped[r] > 0
      modifies this`pages, this`pagemap, this`mapped
      ensures Valid() && mapped == old(mapped)[r := old(mapped[r]) - 1]
      ensures Extends(pagemap, old(pagemap))
    {
      ghost var full := mapped[r := mapped[r] - 1];
      assert full[r := full[r] + 1] == mapped;
      BlockOpened(layout, pagemap, full, r);
      UnmapLayers(r, full);
      NoPartialBlock(layout, pagemap, full, r, layout.layers, 0, 0);
      SumUpdate(mapped, r, mapped[r] - 1);
      mapped := mapped[r := mapped[r] - 1];
    }

    // ----- Reservation

    /** `get_num_phys_blocks`. */
    function PhysPages(freeMemory: nat): nat
      requires layout.Valid()
    {
      var n := freeMemory / layout.pageSize;
      QuotientBounds(freeMemory, layout.pageSize);
      DivMod(n, layout.PagesPerKvblock());
      QuotientBounds(n, layout.PagesPerKvblock());
      n - n % layout.PagesPerKvblock()
    }

    /** The reservation is the largest number of whole kvblocks that fits in the memory. */
    lemma PhysPagesExact(freeMemory: nat)
      requires layout.Valid()
      ensures var n := PhysPages(freeMemory); var p := layout.PagesPerKvblock();
              n == (n / p) * p && n * layout.pageSize <= freeMemory < (n + p) * layout.pageSize
    {
      var q, p := freeMemory / layout.pageSize, layout.PagesPerKvblock();
      var n := PhysPages(freeMemory);
      QuotientBounds(freeMemory, layout.pageSize);
      DivMod(q, p);
      QuotientBounds(q, p);
      DistributeAdd(q / p, 1, p);
      QuotientUnique(n, p, q / p);
      MulMono(n, q, layout.pageSize);
      MulMono(q + 1, n + p, layout.pageSize);
    }

    /** `reserve_cuda_pages`: tops the pool up with new handles. */
    method Reserve(freeMemory: nat, handles: seq<Page>) returns (n: nat)
      requires Valid() && Distinct(handles) && forall h :: h in handles ==> h !in reserved
      requires |handles| >= PhysPages(freeMemory)
      modifies this`pages, this`reserved, this`total
      ensures Valid() && n == |pages| == Max(old(|pages|), PhysPages(freeMemory))
      ensures pages[..old(|pages|)] == old(pages) && old(reserved) <= reserved
    {
      var goal := PhysPages(freeMemory);
      var i := 0;
      while |pages| < goal
        invariant i <= |handles| && |pages| == old(|pages|) + i <= Max(old(|pages|), goal)
        invariant pages[..old(|pages|)] == old(pages) && old(reserved) <= reserved && total == old(total)
        invariant Partition(pages, pagemap, reserved)
        invariant forall j :: i <= j < |handles| ==> handles[j] !in reserved
      {
        ReserveKeepsPartition(pages, pagemap, reserved, handles[i]);
        pages := pages + [handles[i]];
        reserved := reserved + {handles[i]};
        i := i + 1;
      }
      PhysPagesExact(freeMemory);
      ghost var free := if old(|pages|) < goal then goal / layout.PagesPerKvblock() else Free();
      PagesOfIsProduct(free, layout.PagesPerKvblock());
      total := free + Sum(mapped);
      return |pages|;
    }

    // ----- Growing and releasing

    /**
     `grow_kvcache_phys`. Without enough free kvblocks nothing changes, and a synchronous call
     fails; otherwise the request gets them, up to the end of its virtual range.
     */
    method Grow(r: nat, n: nat, sync: bool) returns (ok: bool)
      requires Valid() && r < batch
      modifies this`pages, this`pagemap, this`mapped
      ensures Valid() && (ok <==> !sync || n <= old(Free()))
      ensures mapped == if n <= old(Free())
                        then old(mapped)[r := Min(old(mapped[r]) + n, layout.maxPages)] else old(mapped)
      ensures Extends(old(pagemap), pagemap)
    {
      ok := true;
      if n == 0 {
        return;
      }
      FreeExact();
      if FreeBlocks() < n {
        return !sync;
      }
      var count := 0;
      while count < n
        invariant count <= n && Valid() && old(mapped[r]) + count <= layout.maxPages
        invariant mapped == old(mapped)[r := old(mapped[r]) + count]
        invariant Free() == old(Free()) - count
        invariant Extends(old(pagemap), pagemap)
      {
        ValidOffset(layout, r, mapped[r]);
        if layout.Offset(r, mapped[r]) >= (r + 1) * layout.Stride() {
          return;
        }
        SumUpdate(mapped, r, mapped[r] + 1);
        MapBlock(r);
        count := count + 1;
      }
    }

    /** `release_kvcache_pages_some`. */
    method Release(r: nat, retain: nat)
      requires Valid() && r < batch
      modifies this`pages, this`pagemap, this`mapped
      ensures Valid() && mapped == old(mapped)[r := Min(old(mapped[r]), retain)]
      ensures Extends(pagemap, old(pagemap))
    {
      while mapped[r] > retain
        invariant Valid() && Min(old(mapped[r]), retain) <= mapped[r] && mapped == old(mapped)[r := mapped[r]]
        invariant mapped[r] <= old(mapped[r])
        invariant Extends(pagemap, old(pagemap))
      {
        UnmapBlock(r);
      }
    }

    /** Nobody holds more than is mapped, so what is held fits. */
    lemma HeldFits()
      requires Valid()
      ensures Sum(Held()) <= Sum(mapped) <= total
    {
      SumMono(Held(), mapped);
    }

    /** Takes what request `r` does not need. */
    method TakeSurplus(r: nat, ghost was: seq<nat>, ghost held: seq<nat>)
      requires Valid() && r < batch && |was| == |held| && Held() == held && mapped == Spliced(was, held, r + 1)
      modifies this`pages, this`pagemap, this`mapped
      ensures Valid() && Held() == held && mapped == Spliced(was, held, r) && Extends(pagemap, old(pagemap))
    {
      assert mapped[r] == was[r] && held[r] == Min(was[r], Need(seqLens[r]));
      if mapped[r] > Need(seqLens[r]) {
        Release(r, Need(seqLens[r]));
      }
    }

    /**
     `reclaim_kvblocks_on_demand`: from the last request down, takes what a request does not need
     until `n` kvblocks are free. It succeeds exactly when `n` more fit beside what all hold.
     */
    method Reclaim(n: nat)
      requires Valid()
      modifies this`pages, this`pagemap, this`mapped
      ensures Valid() && Held() == old(Held())
      ensures mapped == AfterReclaim(old(mapped), old(Held()), n, total)
      ensures Free() >= n <==> Sum(Held()) + n <= total
      ensures Extends(pagemap, old(pagemap))
    {
      ghost var was, held := mapped, Held();
      var r: nat := batch;
      while r > 0
        invariant r <= batch && Valid() && Held() == held && mapped == Spliced(was, held, r)
        invariant StopFrom(was, held, n, total, batch) == StopFrom(was, held, n, total, r)
        invariant Extends(pagemap, old(pagemap))
      {
        FreeExact();
        if FreeBlocks() >= n {
          break;
        }
        r := r - 1;
        TakeSurplus(r, was, held);
      }
      HeldFits();
      assert r == 0 ==> mapped == held;
    }

    // ----- One step of the serving loop

    /** Reclaims if `n` kvblocks are not free, then grows the request by `n`. */
    method MakeRoom(r: nat, n: nat) returns (ok: bool)
      requires Valid() && r < batch && mapped[r] + n == Need(seqLens[r])
      modifies this`pages, this`pagemap, this`mapped
      ensures Valid() && (ok <==> Sum(old(Held())) + n <= total)
      ensures Held() == if ok then old(Held())[r := Min(Need(seqLens[r]), layout.maxPages)] else old(Held())
      ensures forall q :: 0 <= q < batch && q != r ==> mapped[q] <= old(mapped[q])
      ensures Keeps(layout, old(pagemap), pagemap, old(Held()))
    {
      HeldFits();
      FreeExact();
      ghost var held := Held();
      if FreeBlocks() < n {
        Reclaim(n);
      }
      assert Held() == held && mapped[r] == old(mapped[r]);
      ExtensionKeeps(layout, old(pagemap), old(mapped), pagemap, mapped, held);
      ghost var middle, middleMapped := pagemap, mapped;
      HeldAfterGrow(mapped, Needs(seqLens, tokensPerPage), r, layout.maxPages);
      ok := Grow(r, n, true);
      ExtensionKeeps(layout, middle, middleMapped, pagemap, mapped, held);
    }

    /**
     `map_pages_for_curr_step`, for a request whose length has been set. It succeeds exactly when
     the request's need fits beside what the others hold, and takes nothing that anyone holds.
     */
    method MapForStep(r: nat, len: nat) returns (ok: bool)
      requires Valid() && r < batch && seqLens[r] == len
      modifies this`pages, this`pagemap, this`mapped, this`seqLens
      ensures Valid() && seqLens == old(seqLens)
      ensures ok <==> Sum(old(Held())[r := Need(len)]) <= total
      ensures Held() == if ok then old(Held())[r := Min(Need(len), layout.maxPages)] else old(Held())
      ensures Need(len) <= old(mapped[r]) ==> mapped == old(mapped)
      ensures forall q :: 0 <= q < batch && q != r ==> mapped[q] <= old(mapped[q])
      ensures Keeps(layout, old(pagemap), pagemap, old(Held()))
    {
      HeldFits();
      TokensToPagesExact(len, tokensPerPage);
      ExtensionKeeps(layout, pagemap, mapped, pagemap, mapped, Held());
      if len == 0 || Need(len) <= mapped[r] {
        assert Held()[r := Need(len)] == Held();
        return true;
      }
      var n := Need(len) - mapped[r];
      SumUpdate(Held(), r, Need(len));
      ok := MakeRoom(r, n);
      if ok {
        seqLens := seqLens[r := len];
      }
    }

    /** One round of `step_sync`. */
    method StepOne(r: nat, len: nat, eager: bool) returns (ok: bool)
      requires Valid() && r < batch
      modifies this`pages, this`pagemap, this`mapped, this`seqLens
      ensures Valid() && seqLens == old(seqLens)[r := len]
      ensures ok <==> Sum(old(Held())[r := Need(len)]) <= total
      ensures ok ==> Held() == old(Held())[r := Min(Need(len), layout.maxPages)]
      ensures ok && eager && len == 0 ==> mapped[r] == 0
      ensures forall q :: 0 <= q < batch && q != r ==> mapped[q] <= old(mapped[q])
      ensures Keeps(layout, old(pagemap), pagemap, Lowered(old(Held()), r, Need(len)))
    {
      ghost var held := Held();
      ghost var keep := Lowered(held, r, Need(len));
      HeldFits();
      TokensToPagesExact(len, tokensPerPage);
      seqLens := seqLens[r := len];
      assert Held() == held[r := Held()[r]];
      if eager && len == 0 && mapped[r] != 0 {
        SumMono(held[r := Need(len)], mapped);
        Release(r, 0);
        ExtensionKeeps(layout, old(pagemap), old(mapped), pagemap, mapped, keep);
        return true;
      }
      assert Held()[r := Need(len)] == held[r := Need(len)];
      ghost var mid := Held();
      ok := MapForStep(r, len);
      KeepsWeaken(layout, old(pagemap), pagemap, mid, keep);
    }

    /** One round of `step_sync`, in terms of what has been served. */
    method StepServe(r: nat, ghost next: nat, lens: seq<nat>, eager: bool, ghost held: seq<nat>, ghost needs: seq<nat>)
      returns (ok: bool)
      requires Valid() && |lens| == |held| == batch && r < batch && next == r + 1 && needs == Needs(lens, tokensPerPage)
      requires Held() == Served(held, needs, layout.maxPages, r)
      modifies this`pages, this`pagemap, this`mapped, this`seqLens
      ensures Valid() && seqLens == old(seqLens)[r := lens[r]]
      ensures ok <==> Sum(StageDemand(held, needs, layout.maxPages, r)) <= total
      ensures ok ==> Held() == Served(held, needs, layout.maxPages, next)
      ensures ok && eager && lens[r] == 0 ==> mapped[r] == 0
      ensures forall q :: 0 <= q < batch && q != r ==> mapped[q] <= old(mapped[q])
      ensures Keeps(layout, old(pagemap), pagemap, Lowered(Served(held, needs, layout.maxPages, r), r, needs[r]))
    {
      ServeNext(held, needs, layout.maxPages, r);
      assert needs[r] == Need(lens[r]);
      ok := StepOne(r, lens[r], eager);
    }

    /**
     `step_sync`. Requests are served in order, each against what the later ones still hold, so
     the step succeeds exactly when every stage fits. After it every request has what its new
     length needs, and every kvblock needed before and after is still mapped to the same pages.
     */
    method StepSync(lens: seq<nat>, eager: bool) returns (ok: bool)
      requires Valid() && |lens| == batch
      modifies this`pages, this`pagemap, this`mapped, this`seqLens
      ensures Valid()
      ensures ok <==> StagesFit(old(Held()), Needs(lens, tokensPerPage), layout.maxPages, total)
      ensures ok ==> seqLens == lens && Covered(mapped, Needs(lens, tokensPerPage), layout.maxPages)
      ensures ok && eager ==> Drained(mapped, lens, batch)
      ensures Keeps(layout, old(pagemap), pagemap, Both(old(Held()), Needs(lens, tokensPerPage)))
    {
      ghost var needs := Needs(lens, tokensPerPage);
      ghost var held, keep := Held(), Both(Held(), needs);
      assert forall r :: 0 <= r < batch ==> held[r] <= layout.maxPages;
      ExtensionKeeps(layout, pagemap, mapped, pagemap, mapped, keep);
      var r := 0;
      while r < batch
        invariant r <= batch && Valid() && seqLens == Spliced(lens, old(seqLens), r)
        invariant Held() == Served(held, needs, layout.maxPages, r)
        invariant StagesFitUpTo(held, needs, layout.maxPages, total, r)
        invariant eager ==> Drained(mapped, lens, r)
        invariant Keeps(layout, old(pagemap), pagemap, keep)
      {
        ghost var before, mappedBefore := pagemap, mapped;
        var next := r + 1;
        BothBelowServed(held, needs, layout.maxPages, r);
        SplicedNext(lens, old(seqLens), r, next);
        StageNext(held, needs, layout.maxPages, total, r, next);
        ok := StepServe(r, next, lens, eager, held, needs);
        KeepsChain(layout, old(pagemap), before, pagemap, keep,
                   Lowered(Served(held, needs, layout.maxPages, r), r, needs[r]), keep);
        if !ok {
          return;
        }
        if eager {
          DrainedNext(mappedBefore, mapped, lens, r, next);
        }
        r := next;
      }
      ok := true;
      assert Spliced(lens, old(seqLens), batch) == lens;
      ServedCovers(mapped, held, needs, layout.maxPages);
    }

    /** One round of `prepare_prefill_kvcache`. */
    method PrepareOne(r: nat, ghost next: nat, ghost held: seq<nat>, ghost needs: seq<nat>) returns (ok: bool)
      requires Valid() && r < batch && next == r + 1 && |held| == batch && needs == Needs(seqLens, tokensPerPage)
      requires Held() == Served(held, needs, layout.maxPages, r)
      modifies this`pages, this`pagemap, this`mapped, this`seqLens
      ensures Valid() && seqLens == old(seqLens)
      ensures ok <==> Sum(StageDemand(held, needs, layout.maxPages, r)) <= total
      ensures ok ==> Held() == Served(held, needs, layout.maxPages, next)
      ensures Keeps(layout, old(pagemap), pagemap, Served(held, needs, layout.maxPages, r))
    {
      ServeNext(held, needs, layout.maxPages, r);
      assert needs[r] == Need(seqLens[r]);
      ok := MapForStep(r, seqLens[r]);
    }

    /** The rounds of `prepare_prefill_kvcache`, once the lengths are set. */
    method PrepareAll(ghost held: seq<nat>, ghost needs: seq<nat>) returns (ok: bool)
      requires Valid() && held == Held() && needs == Needs(seqLens, tokensPerPage)
      modifies this`pages, this`pagemap, this`mapped, this`seqLens
      ensures Valid() && seqLens == old(seqLens)
      ensures ok <==> StagesFit(held, needs, layout.maxPages, total)
      ensures ok ==> Covered(mapped, needs, layout.maxPages)
      ensures Keeps(layout, old(pagemap), pagemap, held)
    {
      assert forall r :: 0 <= r < batch ==> held[r] <= layout.maxPages && held[r] <= needs[r];
      ExtensionKeeps(layout, pagemap, mapped, pagemap, mapped, held);
      var r := 0;
      while r < batch
        invariant r <= batch && Valid() && seqLens == old(seqLens)
        invariant Held() == Served(held, needs, layout.maxPages, r)
        invariant StagesFitUpTo(held, needs, layout.maxPages, total, r)
        invariant Keeps(layout, old(pagemap), pagemap, held)
      {
        ghost var before := pagemap;
        var next := r + 1;
        BelowServed(held, needs, layout.maxPages, r);
        StageNext(held, needs, layout.maxPages, total, r, next);
        ok := PrepareOne(r, next, held, needs);
        KeepsChain(layout, old(pagemap), before, pagemap, held, Served(held, needs, layout.maxPages, r), held);
        if !ok {
          return;
        }
        r := next;
      }
      ok := true;
      ServedCovers(mapped, held, needs, layout.maxPages);
    }

    /**
     The synchronous part of `step_async`: all lengths are set first, so requests that end or
     shrink give way to the others at once. With lengths within the limit it succeeds exactly when
     all requests fit together.
     */
    method Prepare(lens: seq<nat>) returns (ok: bool)
      requires Valid() && |lens| == batch
      modifies this`pages, this`pagemap, this`mapped, this`seqLens
      ensures Valid() && seqLens == lens
      ensures ok <==> var needs := Needs(lens, tokensPerPage);
                      StagesFit(Both(old(mapped), needs), needs, layout.maxPages, total)
      ensures (forall r :: 0 <= r < batch ==> Need(lens[r]) <= layout.maxPages) ==>
                (ok <==> Sum(Needs(lens, tokensPerPage)) <= total)
      ensures ok ==> Covered(mapped, Needs(lens, tokensPerPage), layout.maxPages)
      ensures Keeps(layout, old(pagemap), pagemap, Both(old(mapped), Needs(lens, tokensPerPage)))
    {
      seqLens := lens;
      ghost var needs, held := Needs(lens, tokensPerPage), Held();
      HeldFits();
      if forall r :: 0 <= r < batch ==> Need(lens[r]) <= layout.maxPages {
        GrowingStagesFit(held, needs, layout.maxPages, total);
      }
      ok := PrepareAll(held, needs);
    }

    // ----- Batch ids

    /**
     `alloc_new_batch_idx`: an inactive request id, or -1. The choice is a best fit exactly when
     the first inactive request has enough kvblocks mapped or none has.
     */
    method AllocNewBatchIdx(len: nat) returns (id: int, ghost first: nat)
      requires Valid()
      modifies this`seqLens
      ensures id == -1 ==> seqLens == old(seqLens) && forall r :: 0 <= r < batch ==> old(seqLens)[r] != 0
      ensures id != -1 ==> 0 <= id < batch && seqLens == old(seqLens)[id := len]
      ensures id != -1 ==> FirstInactive(old(seqLens), first) && old(seqLens)[id] == 0
      ensures id != -1 ==> (BestFit(mapped, old(seqLens), Need(len), id) <==>
                mapped[first] >= Need(len) || forall r :: 0 <= r < batch ==> !Fits(mapped, old(seqLens), Need(len), r))
      ensures Valid()
    {
      id, first := -1, 0;
      var need := Need(len);
      var r := 0;
      while r < batch
        invariant r <= batch
        invariant id == -1 ==> forall q :: 0 <= q < r ==> seqLens[q] != 0
        invariant id != -1 ==> 0 <= id < r && seqLens[id] == 0 && FirstInactive(seqLens, first)
        invariant id != -1 ==> if mapped[first] < need then id == first
                               else Fits(mapped, seqLens, need, id) &&
                                    forall q :: 0 <= q < r && Fits(mapped, seqLens, need, q) ==> mapped[id] <= mapped[q]
      {
        if seqLens[r] == 0 {
          if id == -1 {
            id, first := r, r;
          } else if mapped[r] >= need && mapped[r] < mapped[id] {
            id := r;
          }
        }
        r := r + 1;
      }
      if id != -1 {
        seqLens := seqLens[id := len];
      }
    }

    /** `free_batch_idx`: the request's kvblocks stay mapped, and none of them is held any more. */
    method FreeBatchIdx(r: nat)
      requires Valid() && r < batch
      modifies this`seqLens
      ensures Valid() && seqLens == old(seqLens)[r := 0] && Held() == old(Held())[r := 0]
    {
      TokensToPagesExact(0, tokensPerPage);
      seqLens := seqLens[r := 0];
    }

    // ----- The background manager

    /** `set_deferred_reclamation`: whether the manager leaves spare kvblocks where they are. */
    method SetDeferred(value: bool)
      requires Valid()
      modifies this`deferred
      ensures Valid() && deferred == value
    {
      deferred := value;
    }

    /** The number of kvblocks all active requests lack for their next token. */
    method CountAsks() returns (n: nat)
      requires Valid()
      ensures n == Sum(Asks(mapped, seqLens, 1, layout.maxPages, tokensPerPage))
    {
      n := 0;
      var r := 0;
      while r < batch
        invariant r <= batch && n == SumTo(Asks(mapped, seqLens, 1, layout.maxPages, tokensPerPage), r)
      {
        n := n + Ask(mapped[r], seqLens[r], 1, layout.maxPages, tokensPerPage);
        r := r + 1;
      }
    }

    /** Grows one request for `steps` more tokens, if enough kvblocks are free. */
    method GrowAhead(r: nat, steps: nat, ghost was: seq<nat>, ghost fits: bool) returns (n: nat)
      requires Valid() && r < batch && |was| == batch && was[r] <= layout.maxPages && (fits ==> steps == 1)
      requires fits ==> RoundFits(was, seqLens, layout.maxPages, tokensPerPage, total, mapped, r)
      modifies this`pages, this`pagemap, this`mapped
      ensures Valid() && Extends(old(pagemap), pagemap)
      ensures Ahead(old(mapped), mapped, seqLens, steps, tokensPerPage)
      ensures n == Ask(old(mapped)[r], seqLens[r], steps, layout.maxPages, tokensPerPage)
      ensures fits ==> RoundFits(was, seqLens, layout.maxPages, tokensPerPage, total, mapped, r + 1)
    {
      n := Ask(mapped[r], seqLens[r], steps, layout.maxPages, tokensPerPage);
      if fits {
        RoundNext(was, seqLens, layout.maxPages, tokensPerPage, total, mapped, r, n);
      }
      var _ := Grow(r, n, false);
    }

    /**
     One eager round: grows requests for `steps` more tokens, where kvblocks are free. If everything
     asked for in the first round fits, every active request gets it.
     */
    method EagerRound(steps: nat, count0: nat) returns (count: nat, done: bool)
      requires Valid()
      modifies this`pages, this`pagemap, this`mapped
      ensures Valid() && Extends(old(pagemap), pagemap)
      ensures Ahead(old(mapped), mapped, seqLens, steps, tokensPerPage)
      ensures count >= count0 && (batch > 0 ==> (done <==> steps > 1 && count >= 2))
      ensures steps == 1
              && Sum(old(mapped)) + Sum(Asks(old(mapped), seqLens, 1, layout.maxPages, tokensPerPage)) <= total ==>
                Covered(mapped, NextNeeds(seqLens, tokensPerPage), layout.maxPages)
    {
      ghost var was := mapped;
      ghost var fits := steps == 1 && RoundFits(was, seqLens, layout.maxPages, tokensPerPage, total, mapped, 0);
      count, done := count0, false;
      var r := 0;
      while r < batch
        invariant r <= batch && Valid() && Extends(old(pagemap), pagemap)
        invariant Ahead(was, mapped, seqLens, steps, tokensPerPage)
        invariant !done && count >= count0 && (r > 0 ==> !(steps > 1 && count >= 2))
        invariant fits ==> RoundFits(was, seqLens, layout.maxPages, tokensPerPage, total, mapped, r)
      {
        ghost var before := mapped;
        var n := GrowAhead(r, steps, was, fits);
        AheadChain(was, before, mapped, seqLens, steps, steps, steps, tokensPerPage);
        count := count + n;
        r := r + 1;
        if steps > 1 && count >= 2 {
          done := true;
          break;
        }
      }
    }

    /** The eager rounds, until two kvblocks have been asked for beyond the first round. */
    method EagerRounds()
      requires Valid()
      modifies this`pages, this`pagemap, this`mapped
      ensures Valid() && Keeps(layout, old(pagemap), pagemap, old(mapped))
      ensures Ahead(old(mapped), mapped, seqLens, 9, tokensPerPage)
      ensures Sum(old(mapped)) + Sum(Asks(old(mapped), seqLens, 1, layout.maxPages, tokensPerPage)) <= total ==>
                Covered(mapped, NextNeeds(seqLens, tokensPerPage), layout.maxPages)
    {
      ghost var was := mapped;
      ghost var fits := Sum(mapped) + Sum(Asks(mapped, seqLens, 1, layout.maxPages, tokensPerPage)) <= total;
      var count, done := EagerRound(1, 0);
      var steps := 2;
      ghost var ahead := 1;
      while steps < 10 && !done
        invariant 2 <= steps <= 10 && ahead == steps - 1 && Valid() && Extends(old(pagemap), pagemap)
        invariant Ahead(was, mapped, seqLens, ahead, tokensPerPage)
        invariant fits ==> Covered(mapped, NextNeeds(seqLens, tokensPerPage), layout.maxPages)
      {
        ghost var before := mapped;
        count, done := EagerRound(steps, count);
        AheadChain(was, before, mapped, seqLens, ahead, steps, steps, tokensPerPage);
        CoveredGrows(before, mapped, NextNeeds(seqLens, tokensPerPage), layout.maxPages);
        ahead := steps;
        steps := steps + 1;
      }
      AheadChain(was, mapped, mapped, seqLens, ahead, 0, 9, tokensPerPage);
      ExtensionKeeps(layout, old(pagemap), was, pagemap, mapped, was);
    }

    /**
     `do_reclaim_pages`: unless reclaim is deferred, takes one kvblock from the last inactive
     request that has one, but never from the first inactive request, which is allocated next.
     */
    method ReclaimOne() returns (ghost victim: int)
      requires Valid()
      modifies this`pages, this`pagemap, this`mapped
      ensures Valid() && Extends(pagemap, old(pagemap))
      ensures TookOneSpare(old(mapped), seqLens, deferred, victim, mapped)
    {
      victim := -1;
      if deferred {
        return;
      }
      var nextPrefill := -1;
      var r := 0;
      while r < batch
        invariant r <= batch && nextPrefill == -1 && forall q :: 0 <= q < r ==> seqLens[q] != 0
      {
        if seqLens[r] == 0 {
          nextPrefill := r;
          break;
        }
        r := r + 1;
      }
      r := batch;
      while r > 0
        invariant 0 <= r <= batch && victim == -1 && Valid() && mapped == old(mapped) && pagemap == old(pagemap)
        invariant forall q :: r <= q < batch ==> !Spare(mapped, seqLens, q)
      {
        r := r - 1;
        if seqLens[r] == 0 && r != nextPrefill && mapped[r] != 0 {
          assert seqLens[nextPrefill] == 0;
          UnmapBlock(r);
          victim := r;
          break;
        }
      }
    }

    /** Takes back one spare kvblock. Nothing that is held, and nothing of an active request, is touched. */
    method Tidy() returns (ghost victim: int)
      requires Valid()
      modifies this`pages, this`pagemap, this`mapped
      ensures Valid() && Keeps(layout, old(pagemap), pagemap, old(Held()))
      ensures TookOneSpare(old(mapped), seqLens, deferred, victim, mapped)
      ensures Covered(old(mapped), NextNeeds(seqLens, tokensPerPage), layout.maxPages) ==>
                Covered(mapped, NextNeeds(seqLens, tokensPerPage), layout.maxPages)
    {
      ghost var held := Held();
      victim := ReclaimOne();
      TokensToPagesExact(0, tokensPerPage);
      assert victim != -1 ==> held[victim] == 0;
      ExtensionKeeps(layout, old(pagemap), old(mapped), pagemap, mapped, held);
    }

    /** Reclaims if `n` kvblocks are not free. */
    method MakeFree(n: nat) returns (enough: bool)
      requires Valid()
      modifies this`pages, this`pagemap, this`mapped
      ensures Valid() && Held() == old(Held()) && mapped == AfterRoom(old(mapped), old(Held()), n, total)
      ensures enough <==> n <= Free()
      ensures Grown(mapped, old(mapped)) && Grown(Held(), mapped)
      ensures Keeps(layout, old(pagemap), pagemap, old(Held()))
    {
      ghost var held := Held();
      FreeExact();
      if FreeBlocks() < n {
        Reclaim(n);
      }
      FreeExact();
      enough := FreeBlocks() >= n;
      ExtensionKeeps(layout, old(pagemap), old(mapped), pagemap, mapped, held);
    }

    /**
     `do_kvcache_memory_management`. It never takes a kvblock that is held, never looks more than
     nine tokens ahead, and when nothing is asked for takes back one spare kvblock.
     */
    method Manage() returns (ghost grown: seq<nat>, ghost victim: int)
      requires Valid()
      modifies this`pages, this`pagemap, this`mapped
      ensures Valid() && Keeps(layout, old(pagemap), pagemap, old(Held()))
      ensures LookedAhead(old(mapped), old(Held()), seqLens, layout.maxPages, tokensPerPage, total, mapped)
      ensures var asked := Sum(Asks(old(mapped), seqLens, 1, layout.maxPages, tokensPerPage));
              && Ahead(AfterRoom(old(mapped), old(Held()), asked, total), grown, seqLens, 9, tokensPerPage)
              && if asked > 0 then mapped == grown else TookOneSpare(grown, seqLens, deferred, victim, mapped)
    {
      victim := -1;
      ghost var was, held := mapped, Held();
      var asked := CountAsks();
      var enough := MakeFree(asked);
      ghost var m, middle := mapped, pagemap;
      grown := m;
      if !enough {
        AsksAntitone(m, was, seqLens, 1, layout.maxPages, tokensPerPage);
        LookedAheadGrown(was, held, seqLens, layout.maxPages, tokensPerPage, total, m, m);
        return;
      }
      EagerRounds();
      grown := mapped;
      KeepsChain(layout, old(pagemap), middle, pagemap, held, m, held);
      LookedAheadGrown(was, held, seqLens, layout.maxPages, tokensPerPage, total, m, mapped);
      if asked > 0 {
        return;
      }
      HeldGrows(m, mapped, Needs(seqLens, tokensPerPage));
      middle := pagemap;
      ghost var heldNow := Held();
      victim := Tidy();
      KeepsChain(layout, old(pagemap), middle, pagemap, held, heldNow, held);
    }
  }
}
