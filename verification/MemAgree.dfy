/** The indexed allocator against the linear scan. */
module MemAgree {
  import opened Machine
  import opened MemChain
  import MemBlock
  import MemSimple

  /** Some block satisfies the class search for `d` bytes. */
  ghost predicate Indexed(c: Chain, d: nat) { exists b :: b in c && d <= b.remain && 0 < b.remain }

  /** Some block satisfies the linear scan, which sees no block whose address reads as an error code. */
  ghost predicate Scanned(c: Chain, d: nat) { exists b :: b in c && d <= b.remain && IsValid(b.start) }

  /** On the same chain each allocator succeeds exactly when its search can. */
  method AllocAgree(fast: MemBlock.MemBlockPool, simple: MemSimple.MemSimplePool, size: nat) returns (p: int, q: int)
    requires fast.Valid() && simple.Valid() && fast.head != NULL && simple.head != NULL
    requires fast.chain == simple.chain && size < WORD
    modifies fast, simple
    ensures p != NULL <==> Indexed(old(fast.chain), Demand(size))
    ensures q != NULL <==> Scanned(old(fast.chain), Demand(size))
    ensures HEADER <= Demand(size) ==> fast.Valid() && simple.Valid()
  {
    ghost var c := fast.chain;
    ghost var i;
    p, i := fast.Alloc(size);
    q := simple.Alloc(size);
    if p != NULL { assert c[i] in c; }
    if q != NULL {
      ghost var j: nat :| MemSimple.FirstFit(c, j, Demand(size)) && IsValid(c[j].start);
      assert c[j] in c;
    }
  }

  /** In a pool that ends below the error codes the two agree, except that a size computation that wraps
      to zero lets the scan take a block with nothing unused. */
  lemma SearchesAgree(c: Chain, base: nat, len: nat, d: nat)
    requires Good(c, base, len) && 0 < base && base + len < ERR_BASE
    ensures (Indexed(c, d) <==> Scanned(c, d)) <==> 0 < d || exists b :: b in c && 0 < b.remain
  {
    MemSimple.AllValid(c, base, len);
    assert c[0] in c && OkAt(c, 0);
  }
}
