/** The chain of memory blocks that both pool allocators keep.

    A pool is one address range, tiled by blocks.  A block starts with a header, its
    `lenth` counts the header too, and `remain` is the unused tail.  Allocation takes the
    tail of some block and splits it off lazily; freeing merges a block into its left
    neighbour.  This module states what alloc and free do to the chain, independently of
    how a block is found, and proves what holds over every run. */
module MemChain {
  import opened Machine

  /** Size of a block header on the 32-bit target. */
  const HEADER: nat := 32

  datatype Block = Block(start: int, lenth: int, remain: int) {
    function End(): int { start + lenth }
    function Used(): int { lenth - remain }
    predicate Idle() { remain == lenth }
  }

  type Chain = seq<Block>

  function Align8(n: nat): nat { (n + 7) / 8 * 8 }

  /** Bytes taken for a request, in 32-bit unsigned arithmetic. */
  function Demand(size: nat): nat { (Align8(size) % WORD + HEADER) % WORD }

  /** What a request takes when nothing wraps. */
  predicate NoWrap(size: nat) { size <= WORD - HEADER - 8 }

  // ---------------------------------------------------------------------------
  // Well-formed chains

  ghost predicate Tiles(c: Chain, base: int, len: int) {
    && |c| > 0
    && c[0].start == base
    && c[|c| - 1].End() == base + len
    && forall i: nat | i + 1 < |c| :: Joined(c, i)
  }

  /** Block `i` ends where the next one starts. */
  ghost predicate Joined(c: Chain, i: nat)
    requires i + 1 < |c|
  {
    c[i].End() == c[i + 1].start
  }

  /** Only the first block may be idle: every other block holds a live region. */
  ghost predicate BlockOk(b: Block, first: bool) {
    && 0 <= b.start
    && 0 <= b.remain <= b.lenth
    && HEADER <= b.lenth
    && b.start % 8 == 0
    && b.Used() % 8 == 0
    && (HEADER <= b.Used() || (first && b.Idle()))
  }

  ghost predicate OkAt(c: Chain, i: nat)
    requires i < |c|
  {
    BlockOk(c[i], i == 0)
  }

  ghost predicate Good(c: Chain, base: nat, len: nat) {
    && Tiles(c, base, len)
    && forall i: nat | i < |c| :: OkAt(c, i)
  }

  function Fresh(base: nat, len: nat): Chain { [Block(base, len, len)] }

  /** The live user region of a block, if it has one, as an (address, size) pair. */
  ghost function Region(b: Block): set<(int, int)> {
    if HEADER <= b.Used() then {(b.start + HEADER, b.Used() - HEADER)} else {}
  }

  /** The live user regions of a chain. */
  ghost function Live(c: Chain): set<(int, int)> {
    if c == [] then {} else Region(c[0]) + Live(c[1..])
  }

  // ---------------------------------------------------------------------------
  // The two operations

  /** Address handed out when the tail of `b` is taken. */
  function Pointer(b: Block): int { b.start + HEADER + b.Used() }

  /** Take `d` bytes from the tail of a block: an idle block is used in place, any other block
      is cut at the end of its used part and the tail becomes a block of its own. */
  function Cut(b: Block, d: nat): Chain {
    if b.Idle() then
      [b.(remain := b.remain - d)]
    else
      [Block(b.start, b.Used(), 0), Block(b.start + b.Used(), b.remain, b.remain - d)]
  }

  function AllocAt(c: Chain, i: nat, d: nat): Chain
    requires i < |c|
  {
    c[..i] + Cut(c[i], d) + c[i + 1..]
  }

  /** Give back block `i`: it is merged into its left neighbour, the first one becomes idle. */
  function FreeAt(c: Chain, i: nat): Chain
    requires i < |c|
  {
    var b := c[i];
    if i == 0 then
      c[0 := b.(remain := b.lenth)]
    else
      var a := c[i - 1];
      c[..i - 1] + [Block(a.start, a.lenth + b.lenth, a.remain + b.lenth)] + c[i + 1..]
  }

  /** Index of the block whose user area starts at `p`, or the length of the chain. */
  function Find(c: Chain, p: int): (i: nat)
    ensures i <= |c|
    ensures i < |c| ==> c[i].start + HEADER == p
    ensures i == |c| ==> forall b | b in c :: b.start + HEADER != p
  {
    if c == [] then 0
    else if c[0].start + HEADER == p then 0
    else 1 + Find(c[1..], p)
  }

  function FreeChain(c: Chain, p: int): Chain {
    var i := Find(c, p);
    if i < |c| then FreeAt(c, i) else c
  }

  // ---------------------------------------------------------------------------
  // Layout: blocks do not overlap

  lemma {:induction false} BlocksApart(c: Chain, base: nat, len: nat, i: nat, j: nat)
    requires Good(c, base, len)
    requires i < j < |c|
    ensures c[i].start < c[i].End() <= c[j].start < c[j].End()
    decreases j
  {
    assert Joined(c, j - 1) && OkAt(c, i) && OkAt(c, j);
    if i + 1 < j { BlocksApart(c, base, len, i, j - 1); }
  }

  lemma BlockInside(c: Chain, base: nat, len: nat, i: nat)
    requires Good(c, base, len)
    requires i < |c|
    ensures base <= c[i].start < c[i].End() <= base + len
  {
    assert OkAt(c, i);
    if 0 < i { BlocksApart(c, base, len, 0, i); }
    if i < |c| - 1 { BlocksApart(c, base, len, i, |c| - 1); }
  }

  /** [p, p+n) and [q, q+m) do not meet. */
  predicate Apart(p: int, n: int, q: int, m: int) { p + n <= q || q + m <= p }

  lemma {:induction false} LiveConcat(a: Chain, b: Chain)
    ensures Live(a + b) == Live(a) + Live(b)
  {
    if a == [] {
      assert a + b == b;
    } else {
      LiveConcat(a[1..], b);
      assert (a + b)[0] == a[0] && (a + b)[1..] == a[1..] + b;
    }
  }

  lemma {:induction false} LiveBlock(c: Chain, r: (int, int)) returns (i: nat)
    requires r in Live(c)
    ensures i < |c| && HEADER <= c[i].Used() && r == (c[i].start + HEADER, c[i].Used() - HEADER)
  {
    if r in Region(c[0]) {
      i := 0;
    } else {
      i := LiveBlock(c[1..], r);
      i := i + 1;
    }
  }

  lemma LiveRegionInside(c: Chain, base: nat, len: nat, r: (int, int))
    requires Good(c, base, len)
    requires r in Live(c)
    ensures r.0 % 8 == 0 && 0 <= r.1 && base + HEADER <= r.0 && r.0 + r.1 <= base + len
  {
    var i := LiveBlock(c, r);
    assert OkAt(c, i);
    BlockInside(c, base, len, i);
  }

  lemma LiveRegionsApart(c: Chain, base: nat, len: nat, r: (int, int), s: (int, int))
    requires Good(c, base, len)
    requires r in Live(c) && s in Live(c) && r != s
    ensures Apart(r.0, r.1, s.0, s.1)
  {
    var i := LiveBlock(c, r);
    var j := LiveBlock(c, s);
    assert OkAt(c, i) && OkAt(c, j);
    if i < j { BlocksApart(c, base, len, i, j); } else { BlocksApart(c, base, len, j, i); }
  }

  lemma LiveRegionOffHeaders(c: Chain, base: nat, len: nat, r: (int, int), j: nat)
    requires Good(c, base, len)
    requires r in Live(c) && j < |c|
    ensures Apart(r.0, r.1, c[j].start, HEADER)
  {
    var i := LiveBlock(c, r);
    assert OkAt(c, i) && OkAt(c, j);
    if i < j { BlocksApart(c, base, len, i, j); } else if j < i { BlocksApart(c, base, len, j, i); }
  }

  /** Two blocks never start at the same address. */
  lemma StartsDistinct(c: Chain, base: nat, len: nat, i: nat, j: nat)
    requires Good(c, base, len)
    requires i < |c| && j < |c| && c[i].start == c[j].start
    ensures i == j
  {
    if i < j { BlocksApart(c, base, len, i, j); }
    if j < i { BlocksApart(c, base, len, j, i); }
  }

  // ---------------------------------------------------------------------------
  // Allocation

  lemma AllocKeepsTiles(c: Chain, base: nat, len: nat, i: nat, d: nat)
    requires Good(c, base, len)
    requires i < |c|
    ensures Tiles(AllocAt(c, i, d), base, len)
  {
    var c' := AllocAt(c, i, d);
    forall k: nat | k + 1 < |c'| ensures Joined(c', k) {
      if k < i || c[i].Idle() { assert Joined(c, k); } else if i < k { assert Joined(c, k - 1); }
    }
  }

  /** Taking `d` bytes (a multiple of 8) keeps the chain well-formed exactly when `d` covers a
      header, or takes nothing from an idle block. */
  lemma AllocKeepsGood(c: Chain, base: nat, len: nat, i: nat, d: nat)
    requires Good(c, base, len)
    requires i < |c| && d <= c[i].remain && d % 8 == 0
    ensures Good(AllocAt(c, i, d), base, len) <==> HEADER <= d || (d == 0 && c[i].Idle())
  {
    var b := c[i];
    var c' := AllocAt(c, i, d);
    AllocKeepsTiles(c, base, len, i, d);
    assert OkAt(c, i);
    if HEADER <= d || (d == 0 && b.Idle()) {
      forall k: nat | k < |c'| ensures OkAt(c', k) {
        if k < i || (b.Idle() && i < k) { assert OkAt(c, k); } else if i + 1 < k { assert OkAt(c, k - 1); }
      }
    } else {
      assert c'[if b.Idle() then i else i + 1].Used() == d;
      assert !OkAt(c', if b.Idle() then i else i + 1);
    }
  }

  /** Allocation adds one region of exactly the aligned size, at an address not live before,
      and leaves every other live region as it was. */
  lemma AllocAddsRegion(c: Chain, base: nat, len: nat, i: nat, d: nat)
    requires Good(c, base, len)
    requires i < |c| && HEADER <= d <= c[i].remain
    ensures Live(AllocAt(c, i, d)) == Live(c) + {(Pointer(c[i]), d - HEADER)}
    ensures forall r | r in Live(c) :: r.0 != Pointer(c[i])
  {
    assert OkAt(c, i);
    AllocLive(c, i, d);
    forall r | r in Live(c) ensures r.0 != Pointer(c[i]) {
      PointerFresh(c, base, len, i, r);
    }
  }

  lemma AllocLive(c: Chain, i: nat, d: nat)
    requires i < |c| && HEADER <= d <= c[i].remain <= c[i].lenth && (c[i].Idle() || HEADER <= c[i].Used())
    ensures Live(AllocAt(c, i, d)) == Live(c) + {(Pointer(c[i]), d - HEADER)}
  {
    LiveAround(c, i, [c[i]]);
    LiveAround(c, i, Cut(c[i], d));
    assert c == c[..i] + [c[i]] + c[i + 1..];
    CutLive(c[i], d);
  }

  lemma CutLive(b: Block, d: nat)
    requires HEADER <= d <= b.remain <= b.lenth && (b.Idle() || HEADER <= b.Used())
    ensures Live(Cut(b, d)) == Live([b]) + {(Pointer(b), d - HEADER)}
  {
    var m := Cut(b, d);
    if !b.Idle() {
      assert m == [m[0]] + [m[1]];
      LiveConcat([m[0]], [m[1]]);
    }
  }

  lemma PointerFresh(c: Chain, base: nat, len: nat, i: nat, r: (int, int))
    requires Good(c, base, len)
    requires i < |c| && HEADER <= c[i].remain && r in Live(c)
    ensures r.0 != Pointer(c[i])
  {
    assert OkAt(c, i);
    var j := LiveBlock(c, r);
    if i < j { BlocksApart(c, base, len, i, j); }
    if j < i { BlocksApart(c, base, len, j, i); assert OkAt(c, j); }
  }

  lemma LiveAround(c: Chain, i: nat, mid: Chain)
    requires i < |c|
    ensures Live(c[..i] + mid + c[i + 1..]) == Live(c[..i]) + Live(mid) + Live(c[i + 1..])
  {
    LiveConcat(c[..i] + mid, c[i + 1..]);
    LiveConcat(c[..i], mid);
  }

  // ---------------------------------------------------------------------------
  // Freeing

  lemma FreeKeepsGood(c: Chain, base: nat, len: nat, i: nat)
    requires Good(c, base, len)
    requires i < |c|
    ensures Good(FreeAt(c, i), base, len)
  {
    var c' := FreeAt(c, i);
    assert OkAt(c, i);
    if 0 < i { assert Joined(c, i - 1) && OkAt(c, i - 1); }
    forall k: nat | k + 1 < |c'| ensures Joined(c', k) {
      assert Joined(c, if k < i - 1 || i == 0 then k else k + 1);
    }
    forall k: nat | k < |c'| ensures OkAt(c', k) {
      assert OkAt(c, if k < i || i == 0 then k else k + 1);
    }
  }

  /** Freeing removes the region at that address and keeps all others. */
  lemma FreeDropsRegion(c: Chain, base: nat, len: nat, i: nat)
    requires Good(c, base, len)
    requires i < |c|
    ensures Live(FreeAt(c, i)) == set r | r in Live(c) && r.0 != c[i].start + HEADER
  {
    if i == 0 { FreeHeadLive(c); } else { MergeLive(c, i); }
    LiveSplit(c, i);
    var rest := Live(c[..i]) + Live(c[i + 1..]);
    forall r | r in rest ensures r.0 != c[i].start + HEADER {
      OthersElsewhere(c, base, len, i, r);
    }
    DropAt(Live(c), rest, Region(c[i]), c[i].start + HEADER);
  }

  lemma DropAt(all: set<(int, int)>, rest: set<(int, int)>, mine: set<(int, int)>, p: int)
    requires all == rest + mine
    requires (forall r | r in rest :: r.0 != p) && (forall r | r in mine :: r.0 == p)
    ensures rest == set r | r in all && r.0 != p
  {
  }

  lemma LiveSplit(c: Chain, i: nat)
    requires i < |c|
    ensures Live(c) == Live(c[..i]) + Live(c[i + 1..]) + Region(c[i])
  {
    LiveConcat(c[..i], c[i..]);
    assert c == c[..i] + c[i..];
    assert c[i..][1..] == c[i + 1..];
  }

  lemma FreeHeadLive(c: Chain)
    requires |c| > 0
    ensures Live(FreeAt(c, 0)) == Live(c[..0]) + Live(c[1..])
  {
    assert FreeAt(c, 0)[1..] == c[1..];
  }

  lemma MergeLive(c: Chain, i: nat)
    requires 0 < i < |c|
    ensures Live(FreeAt(c, i)) == Live(c[..i]) + Live(c[i + 1..])
  {
    var a := c[i - 1];
    var m := Block(a.start, a.lenth + c[i].lenth, a.remain + c[i].lenth);
    assert Live(FreeAt(c, i)) == Live(c[..i - 1]) + Region(m) + Live(c[i + 1..]) by {
      LiveConcat(c[..i - 1] + [m], c[i + 1..]);
      LiveConcat(c[..i - 1], [m]);
    }
    assert Live(c[..i]) == Live(c[..i - 1]) + Region(a) by {
      assert c[..i] == c[..i - 1] + [a];
      LiveConcat(c[..i - 1], [a]);
    }
  }

  lemma OthersElsewhere(c: Chain, base: nat, len: nat, i: nat, r: (int, int))
    requires Good(c, base, len)
    requires i < |c| && r in Live(c[..i]) + Live(c[i + 1..])
    ensures r.0 != c[i].start + HEADER
  {
    if r in Live(c[..i]) {
      var j := LiveBlock(c[..i], r);
      assert OkAt(c, j);
      BlocksApart(c, base, len, j, i);
    } else {
      var j := LiveBlock(c[i + 1..], r);
      assert OkAt(c, i);
      BlocksApart(c, base, len, i, i + 1 + j);
    }
  }

  lemma FreeOfNothing(c: Chain, p: int)
    requires forall b | b in c :: b.start + HEADER != p
    ensures FreeChain(c, p) == c
  {
    assert forall i | 0 <= i < |c| :: c[i] in c;
  }

  lemma FreeBlockAt(c: Chain, base: nat, len: nat, i: nat)
    requires Good(c, base, len)
    requires i < |c|
    ensures FreeChain(c, c[i].start + HEADER) == FreeAt(c, i)
  {
    var f := Find(c, c[i].start + HEADER);
    assert c[i] in c;
    StartsDistinct(c, base, len, f, i);
  }

  /** Freeing what was just allocated restores the chain exactly. */
  lemma FreeUndoesAlloc(c: Chain, base: nat, len: nat, i: nat, d: nat)
    requires Good(c, base, len)
    requires i < |c| && HEADER <= d <= c[i].remain && d % 8 == 0
    ensures FreeChain(AllocAt(c, i, d), Pointer(c[i])) == c
  {
    var n := if c[i].Idle() then i else i + 1;
    assert OkAt(c, i);
    assert n < |AllocAt(c, i, d)| && AllocAt(c, i, d)[n].start + HEADER == Pointer(c[i]) by { CutPointer(c, i, d); }
    assert FreeAt(AllocAt(c, i, d), n) == c by { MergeCut(c, i, d); }
    assert FreeChain(AllocAt(c, i, d), Pointer(c[i])) == FreeAt(AllocAt(c, i, d), n) by {
      AllocKeepsGood(c, base, len, i, d);
      FreeBlockAt(AllocAt(c, i, d), base, len, n);
    }
  }

  lemma CutPointer(c: Chain, i: nat, d: nat)
    requires i < |c|
    ensures var n := if c[i].Idle() then i else i + 1;
            n < |AllocAt(c, i, d)| && AllocAt(c, i, d)[n].start + HEADER == Pointer(c[i])
  {
  }

  lemma MergeCut(c: Chain, i: nat, d: nat)
    requires i < |c|
    requires c[i].Idle() ==> i == 0
    ensures FreeAt(AllocAt(c, i, d), if c[i].Idle() then i else i + 1) == c
  {
    var b := c[i];
    var c' := AllocAt(c, i, d);
    assert c[..i] + [b] + c[i + 1..] == c;
    if b.Idle() {
      assert c'[0].(remain := c'[0].lenth) == b;
    } else {
      assert c'[..i] == c[..i];
      assert c'[i + 2..] == c[i + 1..];
    }
  }
}
