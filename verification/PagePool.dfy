/**
 Physical pages (vattention/mux.h, vattention/utils.h): the free pool, the page map, and the
 virtual offsets at which a request's pages are mapped.
 */
module PagePool {
  import opened IntMath

  /** A physical page handle. */
  type Page = nat

  /** A page-map key: request, virtual offset, layer. Its entry is the K page and the V page. */
  datatype Key = Key(req: nat, offset: nat, layer: nat)

  type PageMap = map<Key, (Page, Page)>

  /** The number of mappings a kvblock has (one with a megacache, else one per layer), and sizes. */
  datatype Layout = Layout(layers: nat, pageSize: nat, maxPages: nat) {
    predicate Valid() {
      layers > 0 && pageSize > 0
    }

    function Stride(): nat {
      maxPages * pageSize
    }

    function Offset(req: nat, block: nat): nat {
      req * Stride() + block * pageSize
    }

    function PagesPerKvblock(): nat {
      2 * layers
    }

    function KeyOf(req: nat, block: nat, layer: nat): Key {
      Key(req, Offset(req, block), layer)
    }
  }

  // ----- Virtual offsets

  lemma OffsetInjective(y: Layout, req: nat, i: nat, j: nat)
    requires y.Valid() && i < j
    ensures y.Offset(req, i) + y.pageSize <= y.Offset(req, j)
  {
    MulMono(i + 1, j, y.pageSize);
    DistributeAdd(i, 1, y.pageSize);
  }

  /** The offset check of a grow: the next page of a request is within its range exactly below `maxPages`. */
  lemma ValidOffset(y: Layout, req: nat, block: nat)
    requires y.Valid()
    ensures y.Offset(req, block) < (req + 1) * y.Stride() <==> block < y.maxPages
  {
    DistributeAdd(req, 1, y.Stride());
    if block < y.maxPages {
      MulMono(block + 1, y.maxPages, y.pageSize);
      DistributeAdd(block, 1, y.pageSize);
    } else {
      MulMono(y.maxPages, block, y.pageSize);
    }
  }

  lemma WithinRequest(y: Layout, r: nat, i: nat)
    requires y.Valid() && i < y.maxPages
    ensures r * y.Stride() <= y.Offset(r, i) && y.Offset(r, i) + y.pageSize <= (r + 1) * y.Stride()
  {
    MulMono(i + 1, y.maxPages, y.pageSize);
    DistributeAdd(i, 1, y.pageSize);
    DistributeAdd(r, 1, y.Stride());
  }

  lemma NextRequest(y: Layout, r: nat, next: nat)
    requires y.Valid() && r < next
    ensures (r + 1) * y.Stride() <= next * y.Stride()
  {
    MulMono(r + 1, next, y.Stride());
  }

  /** The page at one offset and the page at another do not overlap, and both lie in the reserved range. */
  lemma MappingsDisjoint(y: Layout, batch: nat, r: nat, i: nat, r': nat, i': nat)
    requires y.Valid() && r < batch && r' < batch && i < y.maxPages && i' < y.maxPages && (r, i) != (r', i')
    ensures y.Offset(r, i) + y.pageSize <= y.Offset(r', i') || y.Offset(r', i') + y.pageSize <= y.Offset(r, i)
    ensures y.Offset(r, i) + y.pageSize <= batch * y.Stride()
  {
    WithinRequest(y, r, i);
    WithinRequest(y, r', i');
    NextRequest(y, r, batch);
    if r == r' {
      OffsetInjective(y, r, Min(i, i'), Max(i, i'));
    } else {
      NextRequest(y, Min(r, r'), Max(r, r'));
    }
  }

  // ----- Each page in one place

  predicate Holds(entry: (Page, Page), p: Page) {
    entry.0 == p || entry.1 == p
  }

  ghost predicate Distinct(s: seq<Page>) {
    forall i, j :: 0 <= i < j < |s| ==> s[i] != s[j]
  }

  /** Each entry has two pages of its own: not one twice, and none that is free. */
  ghost predicate EntriesPrivate(pages: seq<Page>, m: PageMap) {
    && (forall k :: k in m ==> m[k].0 != m[k].1 && m[k].0 !in pages && m[k].1 !in pages)
    && forall k, k' :: k in m && k' in m && k != k' ==> !Holds(m[k'], m[k].0) && !Holds(m[k'], m[k].1)
  }

  ghost predicate Mapped(m: PageMap, p: Page) {
    exists k :: k in m && Holds(m[k], p)
  }

  ghost predicate Placed(pages: seq<Page>, m: PageMap, p: Page) {
    p in pages || Mapped(m, p)
  }

  /** Every reserved page is in exactly one place: once in the pool, or in one half of one entry. */
  ghost predicate Partition(pages: seq<Page>, m: PageMap, reserved: set<Page>) {
    && Distinct(pages)
    && EntriesPrivate(pages, m)
    && forall p :: p in reserved <==> Placed(pages, m, p)
  }

  /** Moving the last two pages of the pool into a new entry keeps the partition. */
  lemma MapKeepsPartition(pages: seq<Page>, m: PageMap, reserved: set<Page>, key: Key)
    requires Partition(pages, m, reserved) && |pages| >= 2 && key !in m
    ensures var n := |pages|; Partition(pages[..n - 2], m[key := (pages[n - 1], pages[n - 2])], reserved)
  {
    var n := |pages|;
    var rest, m' := pages[..n - 2], m[key := (pages[n - 1], pages[n - 2])];
    assert pages == rest + [pages[n - 2], pages[n - 1]];
    forall p | p in reserved
      ensures Placed(rest, m', p)
    {
      if p in pages && p !in rest {
        assert Holds(m'[key], p);
      } else if p !in pages {
        var k :| k in m && Holds(m[k], p);
        assert k in m' && m'[k] == m[k];
      }
    }
    forall p | Placed(rest, m', p)
      ensures p in reserved
    {
      if Mapped(m', p) {
        var k :| k in m' && Holds(m'[k], p);
        assert k != key ==> k in m && Holds(m[k], p);
      }
    }
  }

  /** Moving an entry's pages back to the pool keeps the partition. */
  lemma UnmapKeepsPartition(pages: seq<Page>, m: PageMap, reserved: set<Page>, key: Key)
    requires Partition(pages, m, reserved) && key in m
    ensures Partition(pages + [m[key].0, m[key].1], m - {key}, reserved)
  {
    var pages', m' := pages + [m[key].0, m[key].1], m - {key};
    forall p | p in reserved
      ensures Placed(pages', m', p)
    {
      if p !in pages' {
        var k :| k in m && Holds(m[k], p);
        assert k in m' && m'[k] == m[k];
      }
    }
    forall p | Placed(pages', m', p)
      ensures p in reserved
    {
      if Mapped(m', p) {
        var k :| k in m' && Holds(m'[k], p);
        assert k in m && Holds(m[k], p);
      } else if p !in pages {
        assert Holds(m[key], p);
      }
    }
  }

  /** `MAP_PAGES`: the last page becomes the K page and the one before it the V page of a new entry. */
  ghost predicate TookTwo(pages: seq<Page>, m: PageMap, key: Key, pages': seq<Page>, m': PageMap) {
    var n := |pages|;
    n >= 2 && pages' == pages[..n - 2] && m' == m[key := (pages[n - 1], pages[n - 2])]
  }

  /** `UNMAP_PAGES`: the entry's K page and then its V page go to the end of the pool. */
  ghost predicate GaveBack(pages: seq<Page>, m: PageMap, key: Key, pages': seq<Page>, m': PageMap) {
    key in m && pages' == pages + [m[key].0, m[key].1] && m' == m - {key}
  }

  /** Unmapping undoes mapping, but for the order of the pool's last two pages. */
  lemma UnmapUndoesMap(pages: seq<Page>, m: PageMap, key: Key, pages1: seq<Page>, m1: PageMap, pages2: seq<Page>,
                       m2: PageMap)
    requires key !in m && TookTwo(pages, m, key, pages1, m1) && GaveBack(pages1, m1, key, pages2, m2)
    ensures m2 == m && pages2 == pages[..|pages| - 2] + [pages[|pages| - 1], pages[|pages| - 2]]
  {
    assert m2 == m;
  }

  lemma ReserveKeepsPartition(pages: seq<Page>, m: PageMap, reserved: set<Page>, p: Page)
    requires Partition(pages, m, reserved) && p !in reserved
    ensures Partition(pages + [p], m, reserved + {p})
  {
    forall k | k in m
      ensures m[k].0 != p && m[k].1 != p
    {
      assert Holds(m[k], m[k].0) && Holds(m[k], m[k].1);
      assert Mapped(m, m[k].0) && Mapped(m, m[k].1);
    }
  }

  // ----- Which keys the page map has

  /**
   `k` is the key of block `i` of its request: one of the request's `full` first blocks, or, in
   layers `from` to `to` only, the next block of request `r`.
   */
  predicate InBlock(y: Layout, full: seq<nat>, r: nat, from: nat, to: nat, k: Key, i: nat) {
    && k.req < |full|
    && k.offset == y.Offset(k.req, i)
    && (if i < full[k.req] then k.layer < y.layers else k.req == r && i == full[r] && from <= k.layer < to)
  }

  ghost predicate Owned(y: Layout, full: seq<nat>, r: nat, from: nat, to: nat, k: Key) {
    exists i: nat :: InBlock(y, full, r, from, to, k, i)
  }

  /** The keys are exactly those of the first `full` blocks and of the given layers of the next block of `r`. */
  ghost predicate KeysExact(y: Layout, m: PageMap, full: seq<nat>, r: nat, from: nat, to: nat) {
    forall k :: k in m <==> Owned(y, full, r, from, to, k)
  }

  lemma BlockUnique(y: Layout, k: Key, i: nat, j: nat)
    requires y.Valid() && k.offset == y.Offset(k.req, i) == y.Offset(k.req, j)
    ensures i == j
  {
    if i < j {
      OffsetInjective(y, k.req, i, j);
    } else if j < i {
      OffsetInjective(y, k.req, j, i);
    }
  }

  /** Mapping the next layer adds a key that was not there. */
  lemma AddLayer(y: Layout, m: PageMap, full: seq<nat>, r: nat, layer: nat, entry: (Page, Page))
    requires y.Valid() && r < |full| && layer < y.layers && KeysExact(y, m, full, r, 0, layer)
    ensures var key := y.KeyOf(r, full[r], layer);
            key !in m && KeysExact(y, m[key := entry], full, r, 0, layer + 1)
  {
    var key := y.KeyOf(r, full[r], layer);
    if key in m {
      var i: nat :| InBlock(y, full, r, 0, layer, key, i);
      BlockUnique(y, key, i, full[r]);
    }
    var m', next := m[key := entry], layer + 1;
    forall k | k in m'
      ensures Owned(y, full, r, 0, next, k)
    {
      if k == key {
        assert InBlock(y, full, r, 0, next, k, full[r]);
      } else {
        var i: nat :| InBlock(y, full, r, 0, layer, k, i);
        assert InBlock(y, full, r, 0, next, k, i);
      }
    }
    forall k | Owned(y, full, r, 0, next, k)
      ensures k in m'
    {
      var i: nat :| InBlock(y, full, r, 0, next, k, i);
      if i < full[k.req] || k.layer < layer {
        assert InBlock(y, full, r, 0, layer, k, i);
      }
    }
  }

  /** Unmapping the next layer removes a key that was there. */
  lemma RemoveLayer(y: Layout, m: PageMap, full: seq<nat>, r: nat, layer: nat)
    requires y.Valid() && r < |full| && layer < y.layers && KeysExact(y, m, full, r, layer, y.layers)
    ensures var key := y.KeyOf(r, full[r], layer);
            key in m && KeysExact(y, m - {key}, full, r, layer + 1, y.layers)
  {
    var key := y.KeyOf(r, full[r], layer);
    assert InBlock(y, full, r, layer, y.layers, key, full[r]);
    forall k
      ensures k in m - {key} <==> Owned(y, full, r, layer + 1, y.layers, k)
    {
      if k in m - {key} {
        var i: nat :| InBlock(y, full, r, layer, y.layers, k, i);
        assert InBlock(y, full, r, layer + 1, y.layers, k, i);
      } else if Owned(y, full, r, layer + 1, y.layers, k) {
        var i: nat :| InBlock(y, full, r, layer + 1, y.layers, k, i);
        assert InBlock(y, full, r, layer, y.layers, k, i);
        if k == key {
          BlockUnique(y, key, i, full[r]);
        }
      }
    }
  }

  lemma OwnedWhole(y: Layout, full: seq<nat>, r: nat)
    requires y.Valid() && r < |full|
    ensures forall k :: Owned(y, full, r, 0, y.layers, k) <==> Owned(y, full[r := full[r] + 1], 0, 0, 0, k)
  {
    var more := full[r := full[r] + 1];
    forall k
      ensures Owned(y, full, r, 0, y.layers, k) <==> Owned(y, more, 0, 0, 0, k)
    {
      if Owned(y, full, r, 0, y.layers, k) {
        var i: nat :| InBlock(y, full, r, 0, y.layers, k, i);
        assert InBlock(y, more, 0, 0, 0, k, i);
      }
      if Owned(y, more, 0, 0, 0, k) {
        var i: nat :| InBlock(y, more, 0, 0, 0, k, i);
        assert InBlock(y, full, r, 0, y.layers, k, i);
      }
    }
  }

  /** A block mapped in all layers is one more full block. */
  lemma BlockCompleted(y: Layout, m: PageMap, full: seq<nat>, r: nat)
    requires y.Valid() && r < |full| && KeysExact(y, m, full, r, 0, y.layers)
    ensures KeysExact(y, m, full[r := full[r] + 1], 0, 0, 0)
  {
    OwnedWhole(y, full, r);
  }

  /** The last full block is a block mapped in all layers. */
  lemma BlockOpened(y: Layout, m: PageMap, full: seq<nat>, r: nat)
    requires y.Valid() && r < |full| && KeysExact(y, m, full[r := full[r] + 1], 0, 0, 0)
    ensures KeysExact(y, m, full, r, 0, y.layers)
  {
    OwnedWhole(y, full, r);
  }

  /** No layers of the next block: which request it would belong to does not matter. */
  lemma NoPartialBlock(y: Layout, m: PageMap, full: seq<nat>, r: nat, n: nat, r': nat, n': nat)
    requires KeysExact(y, m, full, r, n, n)
    ensures KeysExact(y, m, full, r', n', n')
  {
    forall k
      ensures Owned(y, full, r, n, n, k) <==> Owned(y, full, r', n', n', k)
    {
      if Owned(y, full, r, n, n, k) {
        var i: nat :| InBlock(y, full, r, n, n, k, i);
        assert InBlock(y, full, r', n', n', k, i);
      }
      if Owned(y, full, r', n', n', k) {
        var i: nat :| InBlock(y, full, r', n', n', k, i);
        assert InBlock(y, full, r, n, n, k, i);
      }
    }
  }

  // ----- What stays mapped

  ghost predicate Extends(m: PageMap, m': PageMap) {
    forall k :: k in m ==> k in m' && m[k] == m'[k]
  }

  /** The first `keep[r]` blocks of every request are mapped to the same pages in `m` and `m'`. */
  ghost predicate Keeps(y: Layout, m: PageMap, m': PageMap, keep: seq<nat>) {
    forall r, i, l :: 0 <= r < |keep| && 0 <= i < keep[r] && 0 <= l < y.layers ==>
      var k := y.KeyOf(r, i, l); k in m && k in m' && m[k] == m'[k]
  }

  lemma FullBlockMapped(y: Layout, m: PageMap, full: seq<nat>, r: nat, i: nat, l: nat)
    requires KeysExact(y, m, full, 0, 0, 0) && r < |full| && i < full[r] && l < y.layers
    ensures y.KeyOf(r, i, l) in m
  {
    assert InBlock(y, full, 0, 0, 0, y.KeyOf(r, i, l), i);
  }

  /** When only mappings were added or only mappings were removed, every block that is full in both stays. */
  lemma ExtensionKeeps(y: Layout, m: PageMap, full: seq<nat>, m': PageMap, full': seq<nat>, keep: seq<nat>)
    requires KeysExact(y, m, full, 0, 0, 0) && KeysExact(y, m', full', 0, 0, 0)
    requires |keep| == |full| == |full'| && forall r :: 0 <= r < |keep| ==> keep[r] <= full[r] && keep[r] <= full'[r]
    requires Extends(m, m') || Extends(m', m)
    ensures Keeps(y, m, m', keep)
  {
    forall r, i, l | 0 <= r < |keep| && 0 <= i < keep[r] && 0 <= l < y.layers
      ensures var k := y.KeyOf(r, i, l); k in m && k in m' && m[k] == m'[k]
    {
      FullBlockMapped(y, m, full, r, i, l);
      FullBlockMapped(y, m', full', r, i, l);
    }
  }

  lemma KeepsWeaken(y: Layout, m: PageMap, m': PageMap, keep: seq<nat>, less: seq<nat>)
    requires Keeps(y, m, m', keep) && |less| == |keep| && forall r :: 0 <= r < |less| ==> less[r] <= keep[r]
    ensures Keeps(y, m, m', less)
  {
  }

  lemma KeepsChain(y: Layout, m: PageMap, m1: PageMap, m2: PageMap, keep1: seq<nat>, keep2: seq<nat>, keep: seq<nat>)
    requires Keeps(y, m, m1, keep1) && Keeps(y, m1, m2, keep2) && |keep| == |keep1| == |keep2|
    requires forall r :: 0 <= r < |keep| ==> keep[r] <= keep1[r] && keep[r] <= keep2[r]
    ensures Keeps(y, m, m2, keep)
  {
  }
}
