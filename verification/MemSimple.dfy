/** The simple allocator: the same chain, searched from the first block on. */
module MemSimple {
  import opened Machine
  import opened Options
  import opened MemChain
  import opened MemHeaders
  import opened MemRun

  ghost predicate AllMagic(mem: Memory, c: Chain) {
    forall i: nat | i < |c| :: c[i].start in mem && mem[c[i].start].magic
  }

  ghost predicate Sound(mem: Memory, c: Chain, base: nat, len: nat) {
    && 0 < base && base + len <= WORD
    && Good(c, base, len)
    && Mirrors(mem, c)
    && AllMagic(mem, c)
  }

  /** Block `i` is the first one with `d` unused bytes. */
  ghost predicate FirstFit(c: Chain, i: nat, d: nat) {
    && i < |c| && d <= c[i].remain
    && forall j | 0 <= j < i :: c[j].remain < d
  }

  /** The address that follows block `k - 1`. */
  ghost function Cursor(c: Chain, k: nat): int { if k < |c| then c[k].start else NULL }

  lemma CursorStep(mem: Memory, c: Chain, base: nat, len: nat, k: nat)
    requires Sound(mem, c, base, len) && k < |c|
    ensures c[k].start != NULL && c[k].start in mem && HeaderIs(mem[c[k].start], c[k], PrevOf(c, k), Cursor(c, k + 1))
  {
    assert HeaderOk(mem, c, k);
    BlockInside(c, base, len, k);
  }

  /** Where the walk ends, no block that counts as a valid pointer is left. */
  lemma TopOfChain(mem: Memory, c: Chain, base: nat, len: nat, k: nat)
    requires Sound(mem, c, base, len) && k <= |c| && !IsValid(Cursor(c, k))
    ensures forall j | k <= j < |c| :: !IsValid(c[j].start)
  {
    forall j | k <= j < |c| ensures !IsValid(c[j].start) {
      CursorStep(mem, c, base, len, k);
      if k < j { BlocksApart(c, base, len, k, j); }
    }
  }

  lemma AllValid(c: Chain, base: nat, len: nat)
    requires Good(c, base, len) && 0 < base && base + len < ERR_BASE
    ensures forall b | b in c :: IsValid(b.start)
  {
    forall b | b in c ensures IsValid(b.start) {
      var j: nat :| j < |c| && c[j] == b;
      LowIsValid(c, base, len, j);
    }
  }

  lemma NoBlockAt(c: Chain, base: nat, len: nat, ptr: int)
    requires Good(c, base, len) && 0 < base && IsValid(ptr)
    requires forall b | b in c && IsValid(b.start) :: b.start + HEADER != ptr
    ensures FreeChain(c, ptr) == c && SeenAt(c, ptr)
  {
    forall b | b in c ensures b.start + HEADER != ptr {
      var j: nat :| j < |c| && c[j] == b;
      BlockInside(c, base, len, j);
    }
    FreeOfNothing(c, ptr);
    assert forall i | 0 <= i < |c| :: c[i] in c;
  }

  lemma BlockAt(c: Chain, base: nat, len: nat, i: nat, ptr: int)
    requires Good(c, base, len) && i < |c| && c[i].start + HEADER == ptr
    ensures FreeChain(c, ptr) == FreeAt(c, i) && (SeenAt(c, ptr) <==> Seen(c, i))
  {
    var f := Find(c, ptr);
    assert c[i] in c;
    StartsDistinct(c, base, len, f, i);
  }

  lemma SoundAfterAlloc(mem: Memory, c: Chain, base: nat, len: nat, i: nat, d: nat)
    requires Sound(mem, c, base, len)
    requires i < |c| && d <= c[i].remain && d % 8 == 0
    ensures base <= c[i].start && c[i].start in mem && HeaderIs(mem[c[i].start], c[i], PrevOf(c, i), NextOf(c, i)) && mem[c[i].start].magic
    ensures NextOf(c, i) in mem.Keys + {NULL}
    ensures c[i].Idle() || HEADER <= c[i].Used()
    ensures HEADER <= d ==> Sound(CutMemory(mem, c[i].start, d), AllocAt(c, i, d), base, len)
  {
    LinksPresent(mem, c, i);
    BlockInside(c, base, len, i);
    assert OkAt(c, i);
    if HEADER <= d {
      assert Good(AllocAt(c, i, d), base, len) by { AllocKeepsGood(c, base, len, i, d); }
      assert Mirrors(CutMemory(mem, c[i].start, d), AllocAt(c, i, d)) by { CutMirrors(mem, c, base, len, i, d); }
      assert AllMagic(CutMemory(mem, c[i].start, d), AllocAt(c, i, d)) by { CutKeepsMagic(mem, c, i, d); }
    }
  }

  lemma CutKeepsMagic(mem: Memory, c: Chain, i: nat, d: nat)
    requires AllMagic(mem, c) && i < |c| && c[i].remain <= c[i].lenth
    requires HeaderOk(mem, c, i) && mem[c[i].start].next in mem.Keys + {NULL}
    ensures AllMagic(CutMemory(mem, c[i].start, d), AllocAt(c, i, d))
  {
    var c' := AllocAt(c, i, d);
    forall k: nat | k < |c'| ensures c'[k].start in CutMemory(mem, c[i].start, d) && CutMemory(mem, c[i].start, d)[c'[k].start].magic {
      if c[i].Idle() || k <= i {
        assert c'[k].start == c[k].start;
      } else if k == i + 1 {
        assert c'[k].start == c[i].start + c[i].Used();
      } else {
        assert c'[k] == c[k - 1];
      }
    }
  }

  lemma HeadersOfFree(mem: Memory, c: Chain, base: nat, len: nat, i: nat)
    requires Sound(mem, c, base, len) && i < |c|
    ensures base <= c[i].start && c[i].start in mem && mem[c[i].start].magic
    ensures HeaderIs(mem[c[i].start], c[i], PrevOf(c, i), NextOf(c, i))
    ensures PrevOf(c, i) < c[i].start && NextOf(c, i) != c[i].start
    ensures if i == 0 then PrevOf(c, i) == NULL else PrevOf(c, i) in mem && PrevOf(c, i) != NULL
    ensures NextOf(c, i) != NULL ==> NextOf(c, i) in mem && mem[NextOf(c, i)].prev == c[i].start && NextOf(c, i) != PrevOf(c, i)
  {
    LinksPresent(mem, c, i);
    BlockInside(c, base, len, i);
    if 0 < i {
      LinksPresent(mem, c, i - 1);
      BlockInside(c, base, len, i - 1);
      BlocksApart(c, base, len, i - 1, i);
    }
    if i + 1 < |c| {
      LinksPresent(mem, c, i + 1);
      BlocksApart(c, base, len, i, i + 1);
      if 0 < i { BlocksApart(c, base, len, i - 1, i + 1); }
    }
  }

  /** Merging block `i` in memory keeps the pool sound exactly when every header is reached. */
  lemma SoundAfterFree(mem: Memory, c: Chain, base: nat, len: nat, i: nat, mem': Memory, c': Chain)
    requires Sound(mem, c, base, len) && i < |c| && c[i].start in mem
    requires mem' == FreeMemory(mem, c[i].start, true, mem[c[i].start].(remain := c[i].lenth)) && c' == FreeAt(c, i)
    ensures Sound(mem', c', base, len) <==> Seen(c, i)
  {
    var dead := mem[c[i].start].(remain := c[i].lenth);
    HeadersOfFree(mem, c, base, len, i);
    FreeMirrors(mem, c, base, len, i, true, dead);
    if Seen(c, i) {
      assert Good(c', base, len) by { FreeKeepsGood(c, base, len, i); }
      assert AllMagic(mem', c') by { MergeKeepsMagic(mem, c, i, dead); }
    }
  }

  lemma MergeKeepsMagic(mem: Memory, c: Chain, i: nat, dead: Header)
    requires AllMagic(mem, c) && i < |c| && HeaderOk(mem, c, i) && dead.magic
    ensures AllMagic(MergeMemory(mem, c[i].start, true, dead), FreeAt(c, i))
  {
    var c' := FreeAt(c, i);
    forall k: nat | k < |c'| ensures c'[k].start in MergeMemory(mem, c[i].start, true, dead) && MergeMemory(mem, c[i].start, true, dead)[c'[k].start].magic {
      assert c'[k].start == c[if i == 0 || k < i then k else k + 1].start;
    }
  }

  class MemSimplePool {
    var base: nat
    var lenth: nat
    var head: int
    var mem: Memory
    ghost var chain: Chain

    ghost predicate Valid()
      reads this
    {
      if head == NULL then chain == [] else head == base && Sound(mem, chain, base, lenth)
    }

    constructor ()
      ensures Valid() && head == NULL
    {
      base, lenth, head, mem, chain := 0, 0, NULL, map[], [];
    }

    method Create(addr: nat, size: nat) returns (ok: bool)
      requires Valid() && 0 < addr && addr + size <= WORD
      modifies this
      ensures ok <==> !IsValid(old(head)) && HEADER < size
      ensures !ok ==> unchanged(this)
      ensures ok ==> head == base == Align8(addr) && base + lenth == addr + size && chain == Fresh(base, lenth)
      ensures ok ==> (Valid() <==> HEADER <= lenth)
    {
      if size <= HEADER || IsValid(head) { return false; }
      base := Align8(addr);
      lenth := size - (base - addr);
      chain := Fresh(base, lenth);
      mem := map[base := Header(true, base + HEADER, lenth, lenth, NULL, NULL)];
      head := base;
      assert OkAt(chain, 0) <==> HEADER <= lenth;
      return true;
    }

    /** Serve a request from the first block that is large enough.  The scan ends at the first block whose
        address reads as an error code. */
    method Alloc(size: nat) returns (ptr: int)
      requires Valid() && size < WORD
      modifies this`mem, this`chain
      ensures ptr == NULL ==> unchanged(this) && forall b | b in chain && IsValid(b.start) :: b.remain < Demand(size)
      ensures ptr != NULL ==> exists i: nat :: FirstFit(old(chain), i, Demand(size)) && IsValid(old(chain)[i].start)
                                               && Takes(old(chain), i, Demand(size), ptr, chain)
      ensures HEADER <= Demand(size) ==> Valid()
      ensures head != NULL && HEADER <= Demand(size) && (ptr != NULL || base + lenth < ERR_BASE) ==>
                Step(old(chain), MemRun.Alloc(size, if ptr == NULL then None else Some(ptr)), chain)
    {
      if head == NULL { return NULL; }
      var b, i := FirstBlock(Demand(size));
      if b == NULL {
        if base + lenth < ERR_BASE { AllValid(chain, base, lenth); }
        return NULL;
      }
      DemandIs(size);
      ptr := Serve(b, Demand(size), i);
    }

    /** Walk the chain for the first block with `d` unused bytes. */
    method FirstBlock(d: nat) returns (b: int, ghost i: nat)
      requires Valid() && head != NULL
      ensures b == NULL ==> forall x | x in chain && IsValid(x.start) :: x.remain < d
      ensures b != NULL ==> FirstFit(chain, i, d) && chain[i].start == b && IsValid(b)
    {
      b, i := head, 0;
      while IsValid(b)
        invariant i <= |chain| && b == Cursor(chain, i)
        invariant forall j | 0 <= j < i :: chain[j].remain < d
        decreases |chain| - i
      {
        CursorStep(mem, chain, base, lenth, i);
        if mem[b].remain >= d { return; }
        b := mem[b].next;
        i := i + 1;
      }
      TopOfChain(mem, chain, base, lenth, i);
      b := NULL;
    }

    method Serve(b: int, d: nat, ghost i: nat) returns (ptr: int)
      requires Valid() && head != NULL && d % 8 == 0
      requires i < |chain| && chain[i].start == b && d <= chain[i].remain
      modifies this`mem, this`chain
      ensures Takes(old(chain), i, d, ptr, chain) && ptr != NULL
      ensures HEADER <= d ==> Valid()
    {
      SoundAfterAlloc(mem, chain, base, lenth, i, d);
      var h := mem[b];
      ptr := h.base + (h.lenth - h.remain);
      if h.lenth != h.remain {
        var n := ptr - HEADER;
        mem := mem[n := Header(true, ptr, h.remain, h.remain - d, b, h.next)];
        if h.next != NULL { mem := mem[h.next := mem[h.next].(prev := n)]; }
        mem := mem[b := h.(lenth := h.lenth - h.remain, remain := 0, next := n)];
      } else {
        mem := mem[b := h.(remain := h.remain - d)];
      }
      assert mem == CutMemory(old(mem), b, d);
      chain := AllocAt(chain, i, d);
    }

    /** Whether some block of the chain has its user area at `ptr`; the walk ends at the first block whose
        address reads as an error code. */
    method Employed(ptr: int) returns (found: bool, ghost i: nat)
      requires Valid() && head != NULL
      ensures found ==> i < |chain| && chain[i].start + HEADER == ptr && IsValid(chain[i].start)
      ensures !found ==> forall b | b in chain && IsValid(b.start) :: b.start + HEADER != ptr
    {
      i := 0;
      if !IsValid(ptr - HEADER) || ptr - HEADER !in mem || !mem[ptr - HEADER].magic {
        forall b | b in chain && IsValid(b.start) ensures b.start + HEADER != ptr {
          ghost var j: nat :| j < |chain| && chain[j] == b;
        }
        return false, 0;
      }
      var b := head;
      while IsValid(b)
        invariant i <= |chain| && b == Cursor(chain, i)
        invariant forall j | 0 <= j < i :: chain[j].start + HEADER != ptr
        decreases |chain| - i
      {
        CursorStep(mem, chain, base, lenth, i);
        if mem[b].base == ptr { return true, i; }
        b := mem[b].next;
        i := i + 1;
      }
      TopOfChain(mem, chain, base, lenth, i);
      return false, i;
    }

    /** Give back a region; a pointer that is not the start of a block's user area is ignored, and so is
        one that reads as an error code.  The pool stays sound exactly when the right neighbour does not
        read as an error code, or needs no telling. */
    method Free(ptr: int)
      requires Valid()
      modifies this`mem, this`chain
      ensures chain == if IsValid(ptr) then FreeChain(old(chain), ptr) else old(chain)
      ensures Valid() <==> !IsValid(ptr) || SeenAt(old(chain), ptr)
    {
      if !IsValid(ptr) { return; }
      if head == NULL {
        assert Find([], ptr) == 0;
        return;
      }
      var found, i := Employed(ptr);
      if !found {
        NoBlockAt(chain, base, lenth, ptr);
        return;
      }
      BlockAt(chain, base, lenth, i, ptr);
      Release(ptr - HEADER, i);
    }

    method Release(b: int, ghost i: nat)
      requires Valid() && head != NULL && IsValid(b)
      requires i < |chain| && chain[i].start == b
      modifies this`mem, this`chain
      ensures chain == FreeAt(old(chain), i) && (Valid() <==> Seen(old(chain), i))
    {
      HeadersOfFree(mem, chain, base, lenth, i);
      var h := mem[b];
      var block := b;
      mem := mem[b := h.(remain := h.lenth)];
      if IsValid(h.prev) {
        var a := mem[h.prev];
        mem := mem[h.prev := a.(lenth := a.lenth + h.lenth, remain := a.remain + h.lenth, next := h.next)];
        block := h.prev;
      }
      if IsValid(h.next) { mem := mem[h.next := mem[h.next].(prev := block)]; }
      assert mem == FreeMemory(old(mem), b, true, h.(remain := h.lenth));
      chain := FreeAt(chain, i);
      SoundAfterFree(old(mem), old(chain), base, lenth, i, mem, chain);
    }
  }
}
