/** Runs of the allocators in which the link of a header matters, or the addresses that read as error
    codes do. */
module MemCases {
  import opened Machine
  import opened MemChain
  import opened MemHeaders
  import opened MemIndex
  import opened MemLinks
  import opened MemBlock
  import MemSimple

  /** A request of 8 bytes takes 40. */
  lemma Small()
    ensures Demand(8) == 40
  {
  }

  /** Block `i` is the only one the class search can choose for `d` bytes. */
  ghost predicate Only(c: Chain, i: nat, d: nat) {
    i < |c| && 0 < d <= c[i].remain && forall j: nat | Chosen(c, j, d) :: j == i
  }

  /** A request that takes `d` bytes from a pool in a known state. */
  method Take(pool: MemBlockPool, size: nat, ghost d: nat, ghost c: Chain, ghost ready: set<int>, ghost i: nat)
    returns (ptr: int)
    requires pool.Valid() && pool.head != NULL && pool.chain == c && pool.ready == ready
    requires size < WORD && HEADER <= d == Demand(size) && Only(c, i, d)
    modifies pool`mem, pool`hash, pool`ready, pool`chain
    ensures pool.Valid() && pool.head != NULL && ptr == Pointer(c[i])
    ensures pool.chain == AllocAt(c, i, d) && pool.ready == CutReady(ready, c[i], d)
  {
    assert c[i] in c;
    ghost var j;
    ptr, j := pool.Alloc(size);
  }

  lemma OnlyOne(c: Chain, d: nat)
    requires |c| == 1 && 0 < d <= c[0].remain
    ensures Only(c, 0, d)
  {
  }

  lemma OnlyRoom(c: Chain, i: nat, d: nat)
    requires i < |c| && 0 < d <= c[i].remain && forall j | 0 <= j < |c| && j != i :: c[j].remain < d
    ensures Only(c, i, d)
  {
  }

  lemma FirstOfClass(a: Block, b: Block)
    requires a.remain == b.remain == 40 && a.start < b.start
    ensures Only([a, b], 0, 40)
  {
    assert a in [a, b];
    assert [a, b][1] == b;
  }

  /** A new pool of 80 bytes and two requests that fill it: the second is an exact fit, its header is
      never attached, and freeing it follows a link nobody has written. */
  method ExactFitIsWild() returns (wild: bool)
    ensures wild
  {
    var pool := new MemBlockPool();
    var _ := pool.Create(64, 80);
    Small();
    ghost var c0, c1, c2 := [Block(64, 80, 80)], [Block(64, 80, 40)], [Block(64, 40, 0), Block(104, 40, 0)];
    OnlyOne(c0, 40);
    var p := Take(pool, 8, 40, c0, {64}, 0);
    assert pool.chain == c1;
    OnlyOne(c1, 40);
    p := Take(pool, 8, 40, c1, {64}, 0);
    assert pool.chain == c2 && pool.ready == {64};
    assert UnreadyAt({64}, c2, 1, p);
    wild := pool.Free(p);
  }

  ghost const ONE: Chain := [Block(64, 160, 160)]
  ghost const USED: Chain := [Block(64, 160, 120)]
  ghost const TWO: Chain := [Block(64, 40, 0), Block(104, 120, 80)]
  ghost const THREE: Chain := [Block(64, 40, 0), Block(104, 40, 0), Block(144, 80, 40)]

  lemma FillSteps()
    ensures AllocAt(ONE, 0, 40) == USED && AllocAt(USED, 0, 40) == TWO && AllocAt(TWO, 1, 40) == THREE
    ensures CutReady({64}, ONE[0], 40) == {64} && CutReady({64}, USED[0], 40) == {64, 104}
    ensures CutReady({64, 104}, TWO[1], 40) == {64, 104, 144}
    ensures Only(ONE, 0, 40) && Only(USED, 0, 40) && Only(TWO, 1, 40)
  {
    OnlyOne(ONE, 40);
    OnlyOne(USED, 40);
    OnlyRoom(TWO, 1, 40);
  }

  /** A pool of 160 bytes with three small regions, of which `q` is the middle one. */
  method Filled() returns (pool: MemBlockPool, q: int)
    ensures fresh(pool) && pool.Valid() && pool.head != NULL && q == 136 && pool.base + pool.lenth == 224
    ensures pool.chain == THREE && pool.ready == {64, 104, 144}
  {
    pool := new MemBlockPool();
    var _ := pool.Create(64, 160);
    Small();
    FillSteps();
    var p := Take(pool, 8, 40, ONE, {64}, 0);
    q := Take(pool, 8, 40, USED, {64}, 0);
    p := Take(pool, 8, 40, TWO, {64, 104}, 1);
  }

  lemma FreeMiddle()
    ensures FreeChain(THREE, 136) == [Block(64, 80, 40), Block(144, 80, 40)]
    ensures AllocAt([Block(64, 80, 40), Block(144, 80, 40)], 0, 40) == THREE
    ensures CutReady({64, 104, 144}, Block(64, 80, 40), 40) == {64, 104, 144}
    ensures !WildAt({64, 104, 144}, THREE, 136)
  {
    assert THREE[1].start + HEADER == 136 && THREE[1..][0] == THREE[1];
    assert Find(THREE, 136) == 1;
  }

  /** The same exact fit where a listed block was before: the link left over is initialised and the
      free is harmless. */
  method RecycledHeaderIsTame() returns (wild: bool, again: bool)
    ensures !wild && !again
  {
    var pool, q := Filled();
    FreeMiddle();
    LowPool(pool.chain, pool.base, pool.lenth, q);
    wild := pool.Free(q);
    ghost var c := [Block(64, 80, 40), Block(144, 80, 40)];
    Small();
    FirstOfClass(c[0], c[1]);
    q := Take(pool, 8, 40, c, {64, 104, 144}, 0);
    again := pool.Free(q);
  }

  // ---------------------------------------------------------------------------
  // A pool of 8192 bytes that ends at the last address

  const TOP: int := 0xFFFF_E000

  lemma TopSizes()
    ensures Demand(0x1000) == 0x1020 && Demand(0x800) == 0x820 && Demand(8) == 40
  {
  }

  /** After a large and a small region the linear scan meets a block at 0xFFFFF020, takes it for the end of
      the chain, and finds nothing, although that block has 0xFB8 bytes unused. */
  method ScanStopsAtTop() returns (pool: MemSimple.MemSimplePool, p: int)
    ensures p == NULL && Block(0xFFFF_F020, 0xFE0, 0xFB8) in pool.chain && Demand(8) == 40
  {
    pool := new MemSimple.MemSimplePool();
    var _ := pool.Create(TOP, 0x2000);
    TopSizes();
    assert pool.chain[0] in pool.chain;
    p := pool.Alloc(0x1000);
    assert pool.chain == [Block(TOP, 0x2000, 0xFE0)];
    assert pool.chain[0] in pool.chain;
    p := pool.Alloc(8);
    assert pool.chain == [Block(TOP, 0x1020, 0), Block(0xFFFF_F020, 0xFE0, 0xFB8)];
    assert pool.chain[1] in pool.chain;
    p := pool.Alloc(8);
  }

  /** The indexed pool serves both requests, and then ignores the free of the second. */
  method TopRegionStays() returns (pool: MemBlockPool, p: int, wild: bool)
    ensures p == 0xFFFF_F040 && !wild && pool.chain == [Block(TOP, 0x1020, 0), Block(0xFFFF_F020, 0xFE0, 0xFB8)]
  {
    pool := new MemBlockPool();
    var _ := pool.Create(TOP, 0x2000);
    TopSizes();
    ghost var c0, c1 := [Block(TOP, 0x2000, 0x2000)], [Block(TOP, 0x2000, 0xFE0)];
    OnlyOne(c0, 0x1020);
    p := Take(pool, 0x1000, 0x1020, c0, {TOP}, 0);
    assert pool.chain == c1;
    OnlyOne(c1, 40);
    p := Take(pool, 8, 40, c1, {TOP}, 0);
    assert pool.chain == [Block(TOP, 0x1020, 0), Block(0xFFFF_F020, 0xFE0, 0xFB8)];
    wild := pool.Free(p);
  }

  ghost const TOP_ONE: Chain := [Block(TOP, 0x2000, 0x2000)]
  ghost const TOP_USED: Chain := [Block(TOP, 0x2000, 0x17E0)]
  ghost const TOP_TWO: Chain := [Block(TOP, 0x820, 0), Block(0xFFFF_E820, 0x17E0, 0xFC0)]
  ghost const SPLIT: Chain :=
    [Block(TOP, 0x820, 0), Block(0xFFFF_E820, 0x820, 0), Block(0xFFFF_F040, 0xFC0, 0xF98)]

  lemma SplitSteps()
    ensures AllocAt(TOP_ONE, 0, 0x820) == TOP_USED && AllocAt(TOP_USED, 0, 0x820) == TOP_TWO && AllocAt(TOP_TWO, 1, 40) == SPLIT
    ensures CutReady({TOP}, TOP_ONE[0], 0x820) == {TOP} && CutReady({TOP}, TOP_USED[0], 0x820) == {TOP, 0xFFFF_E820}
    ensures CutReady({TOP, 0xFFFF_E820}, TOP_TWO[1], 40) == {TOP, 0xFFFF_E820, 0xFFFF_F040}
    ensures Only(TOP_ONE, 0, 0x820) && Only(TOP_USED, 0, 0x820) && Only(TOP_TWO, 1, 40)
  {
    OnlyOne(TOP_ONE, 0x820);
    OnlyOne(TOP_USED, 0x820);
    OnlyRoom(TOP_TWO, 1, 40);
  }

  method SplitAtTop() returns (pool: MemBlockPool, q: int)
    ensures fresh(pool) && pool.Valid() && pool.head != NULL && pool.chain == SPLIT && q == 0xFFFF_E840
    ensures pool.ready == {TOP, 0xFFFF_E820, 0xFFFF_F040}
  {
    pool := new MemBlockPool();
    var _ := pool.Create(TOP, 0x2000);
    TopSizes();
    SplitSteps();
    var p := Take(pool, 0x800, 0x820, TOP_ONE, {TOP}, 0);
    q := Take(pool, 0x800, 0x820, TOP_USED, {TOP}, 0);
    p := Take(pool, 8, 40, TOP_TWO, {TOP, 0xFFFF_E820}, 1);
  }

  lemma SplitFree()
    ensures Find(SPLIT, 0xFFFF_E840) == 1 && !SeenAt(SPLIT, 0xFFFF_E840)
    ensures !WildAt({TOP, 0xFFFF_E820, 0xFFFF_F040}, SPLIT, 0xFFFF_E840)
  {
    assert SPLIT[1..][0] == SPLIT[1];
  }

  /** Freeing the block below the boundary does not tell the one above it: the headers no longer spell out
      a chain. */
  method TopNeighbourLost() returns (pool: MemBlockPool, wild: bool)
    ensures !wild && !pool.Valid()
  {
    var q;
    pool, q := SplitAtTop();
    SplitFree();
    wild := pool.Free(q);
  }
}
