/** The block allocator: a pool whose free space is found through the size-class index. */
module MemBlock {
  import opened Machine
  import opened Options
  import opened MemChain
  import opened MemIndex
  import opened MemHeaders
  import opened MemLinks
  import opened MemRun

  /** The highest set bit of a size between the two limits, searched downwards. */
  method HighestBit(total: nat) returns (index: nat)
    requires LOWER_LIMIT <= total < HIGH_LIMIT
    ensures index == ClassOf(total) && 5 <= index <= 12 && Pow2(index) <= total < Pow2(index + 1)
  {
    index := HIGH_BYTES;
    ClassBounds();
    while !HasBit(total, index)
      invariant 5 <= index <= HIGH_BYTES && total < Pow2(index + 1)
      decreases index
    {
      TopBit(total, index);
      index := index - 1;
    }
    TopBit(total, index);
  }

  /** Class of the list a block with this much unused space belongs to. */
  method GetHash(total: int) returns (index: nat)
    requires 0 <= total
    ensures index == ClassOf(total)
    ensures if total < 32 then index == 4 else if 8192 <= total then index == 13 else Pow2(index) <= total < Pow2(index + 1)
  {
    if total >= HIGH_LIMIT { return HIGH_BYTES; }
    if total < LOWER_LIMIT { return LOWER_BYTES; }
    index := HighestBit(total);
  }

  /** Place an address before the first larger one. */
  method InsertAddress(l: seq<int>, a: int) returns (r: seq<int>)
    ensures r == Insert(l, a)
  {
    var x := 0;
    while x < |l| && !(a < l[x])
      invariant x <= |l|
      invariant forall y | 0 <= y < x :: l[y] <= a
    {
      x := x + 1;
    }
    InsertAt(l, a, x);
    r := l[..x] + [a] + l[x..];
  }

  /** `r` is the lowest block of class `k` with `d` unused bytes, or NULL if there is none. */
  ghost predicate FoundIn(c: Chain, k: nat, d: nat, r: int) {
    if r == NULL then
      forall b | b in c && Listed(b, k) :: b.remain < d
    else
      && (exists b :: b in c && Listed(b, k) && d <= b.remain && b.start == r)
      && (forall b | b in c && Listed(b, k) && d <= b.remain :: r <= b.start)
  }

  /** The headers in memory spell out a well-formed chain and the index is exact for it. */
  ghost predicate Sound(mem: Memory, hash: seq<seq<int>>, c: Chain, base: nat, len: nat) {
    && 0 < base && base + len <= WORD
    && Good(c, base, len)
    && Mirrors(mem, c)
    && Marked(mem, c)
    && Exact(hash, c)
  }

  /** What the header of block `i` says, as far as the code relies on it. */
  lemma HeaderOfCut(mem: Memory, c: Chain, base: nat, len: nat, i: nat)
    requires Good(c, base, len) && Mirrors(mem, c) && 0 < base && i < |c|
    ensures base <= c[i].start && c[i].start in mem && HeaderIs(mem[c[i].start], c[i], PrevOf(c, i), NextOf(c, i))
    ensures 0 <= c[i].remain <= c[i].lenth && (c[i].Idle() || HEADER <= c[i].Used())
    ensures NextOf(c, i) in mem.Keys + {NULL} && NextOf(c, i) != c[i].start
  {
    HeaderFacts(mem, c, base, len, i);
  }

  /** What the cut of block `i` relies on. */
  lemma BeforeCut(mem: Memory, hash: seq<seq<int>>, ready: set<int>, c: Chain, base: nat, len: nat, i: nat, d: nat)
    requires Sound(mem, hash, c, base, len) && LinksOk(ready, c) && i < |c| && d <= c[i].remain && 0 < c[i].remain
    ensures var b := c[i].start;
            && 0 < b && |hash| == CLASSES && b in mem && mem[b].base == b + HEADER && b in ready
            && c[i] == Block(b, mem[b].lenth, mem[b].remain) && c[i].remain <= c[i].lenth
            && (c[i].Idle() || HEADER <= c[i].Used())
            && mem[b].next in mem.Keys + {NULL} && mem[b].next != b
  {
    HeaderOfCut(mem, c, base, len, i);
  }

  /** And what it leaves. */
  lemma AfterCut(mem: Memory, hash: seq<seq<int>>, ready: set<int>, c: Chain, base: nat, len: nat, i: nat, d: nat,
                mem': Memory, hash': seq<seq<int>>, ready': set<int>, c': Chain)
    requires Sound(mem, hash, c, base, len) && LinksOk(ready, c)
    requires i < |c| && d <= c[i].remain && 0 < c[i].remain && d % 8 == 0 && c' == AllocAt(c, i, d)
    requires c[i].start in mem && mem[c[i].start].next in mem.Keys + {NULL} && mem' == CutMemory(mem, c[i].start, d)
    requires hash' == Attached(Unlinked(hash, c[i].start), c[i].start + c[i].Used(), c[i].remain - d)
    requires ready' == CutReady(ready, c[i], d)
    ensures HEADER <= d ==> Sound(mem', hash', c', base, len) && LinksOk(ready', c')
  {
    if HEADER <= d {
      SoundAfterAlloc(mem, hash, c, base, len, i, d, mem', hash', c');
      LinksAfterCut(ready, c, base, len, i, d);
    }
  }

  /** Taking the tail of block `i` in memory keeps the pool sound. */
  lemma SoundAfterAlloc(mem: Memory, hash: seq<seq<int>>, c: Chain, base: nat, len: nat, i: nat, d: nat,
                        mem': Memory, hash': seq<seq<int>>, c': Chain)
    requires Sound(mem, hash, c, base, len)
    requires i < |c| && HEADER <= d <= c[i].remain && d % 8 == 0 && c' == AllocAt(c, i, d)
    requires c[i].start in mem && mem[c[i].start].next in mem.Keys + {NULL} && mem' == CutMemory(mem, c[i].start, d)
    requires hash' == Attached(Unlinked(hash, c[i].start), c[i].start + c[i].Used(), c[i].remain - d)
    ensures Sound(mem', hash', c', base, len)
  {
    HeaderFacts(mem, c, base, len, i);
    assert Good(c', base, len) by { AllocKeepsGood(c, base, len, i, d); }
    assert Mirrors(mem', c') by { CutMirrors(mem, c, base, len, i, d); }
    assert Marked(mem', c') by { CutKeepsMarked(mem, c, i, d); }
    assert Exact(hash', c') by { AllocKeepsIndex(hash, c, base, len, i, d); }
  }

  /** What the headers of block `i` and its neighbours say, as far as a free relies on it. */
  lemma HeadersOfFree(mem: Memory, c: Chain, base: nat, len: nat, i: nat)
    requires Good(c, base, len) && Mirrors(mem, c) && 0 < base && i < |c|
    ensures c[i].start in mem && HeaderIs(mem[c[i].start], c[i], PrevOf(c, i), NextOf(c, i)) && 0 <= c[i].lenth
    ensures PrevOf(c, i) < c[i].start && NextOf(c, i) != c[i].start
    ensures if i == 0 then PrevOf(c, i) == NULL
            else PrevOf(c, i) in mem && PrevOf(c, i) != NULL && mem[PrevOf(c, i)].remain == c[i - 1].remain >= 0
    ensures NextOf(c, i) != NULL ==> NextOf(c, i) in mem && mem[NextOf(c, i)].prev == c[i].start && NextOf(c, i) != PrevOf(c, i)
  {
    HeaderFacts(mem, c, base, len, i);
    if 0 < i {
      HeaderFacts(mem, c, base, len, i - 1);
      BlocksApart(c, base, len, i - 1, i);
    }
    if i + 1 < |c| {
      HeaderFacts(mem, c, base, len, i + 1);
      if 0 < i { BlocksApart(c, base, len, i - 1, i + 1); }
    }
  }

  /** Merging block `i` in memory keeps the pool sound exactly when every header is reached. */
  lemma SoundAfterFree(mem: Memory, hash: seq<seq<int>>, c: Chain, base: nat, len: nat, i: nat,
                       mem': Memory, hash': seq<seq<int>>, c': Chain)
    requires Sound(mem, hash, c, base, len) && i < |c| && c[i].start in mem
    requires mem' == FreeMemory(mem, c[i].start, false, Dead(mem[c[i].start])) && c' == FreeAt(c, i)
    requires hash' == if i == 0 then Attached(Unlinked(hash, c[i].start), c[0].start, c[0].lenth)
                      else Attached(Unlinked(Unlinked(hash, c[i].start), c[i - 1].start), c[i - 1].start, c[i - 1].remain + c[i].lenth)
    ensures Sound(mem', hash', c', base, len) <==> Seen(c, i)
  {
    var dead := Dead(mem[c[i].start]);
    HeadersOfFree(mem, c, base, len, i);
    FreeMirrors(mem, c, base, len, i, false, dead);
    if Seen(c, i) {
      assert Good(c', base, len) by { FreeKeepsGood(c, base, len, i); }
      assert Marked(mem', c') by {
        if 0 < i { HeaderFacts(mem, c, base, len, i - 1); }
        HeaderFacts(mem, c, base, len, i);
        MergeKeepsMarked(mem, c, i, false, dead);
      }
      assert Exact(hash', c') by {
        if i == 0 { FreeHeadKeepsIndex(hash, c, base, len); } else { FreeKeepsIndex(hash, c, base, len, i); }
      }
    }
  }

  lemma ListedAfter(mem: Memory, c: Chain, base: nat, len: nat, k: nat, x: nat, total: nat, b: Block)
    requires Good(c, base, len) && Mirrors(mem, c)
    requires x <= |ClassList(c, k)|
    requires forall y | 0 <= y < x :: ClassList(c, k)[y] in mem && mem[ClassList(c, k)[y]].remain < total
    requires b in c && Listed(b, k) && total <= b.remain
    ensures x < |ClassList(c, k)| && ClassList(c, k)[x] <= b.start
  {
    var i :| 0 <= i < |c| && c[i] == b;
    assert HeaderOk(mem, c, i);
    ClassListHas(c, k, i);
    var y :| 0 <= y < |ClassList(c, k)| && ClassList(c, k)[y] == b.start;
    assert c[0..] == c;
    ClassListAscends(c, base, len, k, 0);
  }

  class MemBlockPool {
    var base: nat
    var lenth: nat
    var head: int
    var mem: Memory
    var hash: seq<seq<int>>
    /** Addresses at which the list link of a header is initialised. */
    var ready: set<int>
    ghost var chain: Chain

    ghost predicate Valid()
      reads this
    {
      if head == NULL then
        mem == map[] && chain == [] && |hash| == CLASSES
      else
        head == base && Sound(mem, hash, chain, base, lenth) && LinksOk(ready, chain)
    }

    ghost function State(): Links
      reads this
    {
      Links(chain, ready)
    }

    /** The list link of every block is initialised. */
    ghost predicate Ready()
      reads this
    {
      AllReady(ready, chain)
    }

    constructor ()
      ensures Valid() && head == NULL
    {
      base, lenth, head, mem, ready, chain := 0, 0, NULL, map[], {}, [];
      hash := seq(CLASSES, _ => []);
    }

    /** Walk one class list for the first block with enough unused space. */
    method SearchClass(k: nat, total: nat) returns (r: int)
      requires Valid() && head != NULL && k < CLASSES
      ensures FoundIn(chain, k, total, r)
    {
      var l := hash[k];
      assert ListOk(hash, chain, k);
      var x := 0;
      while x < |l|
        invariant x <= |l|
        invariant forall y | 0 <= y < x :: l[y] in mem && mem[l[y]].remain < total
      {
        ghost var i := ClassListMember(chain, k, l[x]);
        assert OkAt(chain, i);
        assert HeaderOk(mem, chain, i);
        BlockInside(chain, base, lenth, i);
        if mem[l[x]].remain >= total {
          forall b | b in chain && Listed(b, k) && total <= b.remain ensures l[x] <= b.start {
            ListedAfter(mem, chain, base, lenth, k, x, total, b);
          }
          assert chain[i] in chain;
          return l[x];
        }
        x := x + 1;
      }
      forall b | b in chain && Listed(b, k) ensures b.remain < total {
        if total <= b.remain { ListedAfter(mem, chain, base, lenth, k, x, total, b); }
      }
      return NULL;
    }

    /** Find a block with `total` unused bytes: start at the class of `total` and go up.  Nothing
        is found only if no block of the whole chain is large enough. */
    method GetAvailable(total: nat) returns (r: int)
      requires Valid() && head != NULL
      ensures r == NULL ==> forall b | b in chain && 0 < b.remain :: b.remain < total
      ensures r != NULL ==> exists i: nat :: Chosen(chain, i, total) && chain[i].start == r
    {
      if total >= HIGH_LIMIT {
        r := SearchClass(HIGH_BYTES, total);
        if r != NULL { ghost var i := ChosenIn(chain, HIGH_BYTES, total, r); }
        return;
      }
      var size := total;
      if total < LOWER_LIMIT {
        r := SearchClass(LOWER_BYTES, total);
        if r != NULL { ghost var i := ChosenIn(chain, LOWER_BYTES, total, r); return; }
        size := LOWER_LIMIT;
      }
      var index := HighestBit(size);
      while index < CLASSES
        invariant 5 <= index <= CLASSES
        invariant forall b | b in chain && 0 < b.remain && ClassOf(b.remain) < index :: b.remain < total
      {
        r := SearchClass(index, size);
        if r != NULL { ghost var i := ChosenIn(chain, index, total, r); return; }
        index := index + 1;
      }
      return NULL;
    }

    /** Put a block in the list of its class, below the first block at a higher address.  A block
        with nothing unused is left alone, and its link is then not initialised either. */
    method Attach(a: int)
      requires |hash| == CLASSES && a in mem && 0 <= mem[a].remain
      modifies this`hash, this`ready
      ensures hash == Attached(old(hash), a, mem[a].remain)
      ensures ready == old(ready) + (if mem[a].remain == 0 then {} else {a})
    {
      if mem[a].remain == 0 { return; }
      var k := GetHash(mem[a].remain);
      ready := ready + {a};
      var l := InsertAddress(hash[k], a);
      hash := hash[k := l];
    }

    /** Take a block out of the list it is in, if any.  This follows the link of the block. */
    method Detach(a: int)
      requires a in ready
      modifies this`hash
      ensures hash == Unlinked(old(hash), a)
    {
      hash := Unlinked(hash, a);
    }

    method Create(addr: nat, size: nat) returns (ok: bool)
      requires Valid() && 0 < addr && addr + size <= WORD
      modifies this
      ensures ok <==> !IsValid(old(head)) && HEADER < size
      ensures !ok ==> unchanged(this)
      ensures ok ==> head == base == Align8(addr) && base + lenth == addr + size && chain == Fresh(base, lenth)
      ensures ok ==> (Good(chain, base, lenth) <==> HEADER <= lenth)
      ensures ok && HEADER <= lenth ==> Valid() && Ready() && ready == {base}
    {
      if size <= HEADER || IsValid(head) { return false; }
      base := Align8(addr);
      lenth := size - (base - addr);
      chain := Fresh(base, lenth);
      mem := map[base := Header(true, base + HEADER, lenth, lenth, NULL, NULL)];
      head := base;
      var lists: seq<seq<int>> := [];
      for k := 0 to CLASSES
        invariant |lists| == k && forall j | 0 <= j < k :: lists[j] == []
      {
        lists := lists + [[]];
      }
      hash, ready := lists, {};
      Attach(base);
      assert OkAt(chain, 0) <==> HEADER <= lenth;
      if HEADER <= lenth {
        assert chain == [] + chain + [];
        assert chain[0] in chain;
        AttachBlock(lists, [], chain, [], chain[0]);
      }
      return true;
    }

    /** Cut `d` bytes off the tail of block `b` and relist what is left.  The fields of a new header are
        written, its link is not. */
    method TakeTail(b: int, d: nat, ghost x: Block) returns (ptr: int)
      requires |hash| == CLASSES && b in mem && mem[b].base == b + HEADER && b in ready
      requires x == Block(b, mem[b].lenth, mem[b].remain) && d <= x.remain <= x.lenth && (x.Idle() || HEADER <= x.Used())
      requires mem[b].next in mem.Keys + {NULL} && mem[b].next != b
      modifies this`mem, this`hash, this`ready
      ensures ptr == Pointer(x)
      ensures mem == CutMemory(old(mem), x.start, d)
      ensures hash == Attached(Unlinked(old(hash), x.start), x.start + x.Used(), x.remain - d)
      ensures ready == CutReady(old(ready), x, d)
    {
      var h := mem[b];
      Detach(b);
      ptr := h.base + (h.lenth - h.remain);
      if h.lenth != h.remain {
        var n := ptr - HEADER;
        mem := mem[n := Header(true, ptr, h.remain, h.remain - d, b, h.next)];
        ready := Overwritten(ready, n, LINK);
        if h.next != NULL { mem := mem[h.next := mem[h.next].(prev := n)]; }
        mem := mem[b := h.(lenth := h.lenth - h.remain, remain := 0, next := n)];
        Attach(n);
      } else {
        mem := mem[b := h.(magic := true, remain := h.remain - d)];
      }
      Attach(b);
    }

    /** Serve a request from the block `i` the class search chooses.  A request whose 32-bit size
        computation wraps below a header is served too, but then the pool is no longer sound. */
    method Alloc(size: nat) returns (ptr: int, ghost i: nat)
      requires Valid() && size < WORD
      modifies this`mem, this`hash, this`ready, this`chain
      ensures ptr == NULL ==> unchanged(this)
      ensures ptr == NULL && head != NULL ==> forall b | b in chain && 0 < b.remain :: b.remain < Demand(size)
      ensures ptr != NULL ==> Chosen(old(chain), i, Demand(size)) && Takes(old(chain), i, Demand(size), ptr, chain)
      ensures ptr != NULL ==> ready == CutReady(old(ready), old(chain)[i], Demand(size))
      ensures ptr != NULL && old(Ready()) ==>
                (Ready() <==> old(chain)[i].Idle() || Demand(size) < old(chain)[i].remain || ptr - HEADER in old(ready))
      ensures ptr != NULL && HEADER <= Demand(size) ==> Happens(old(State()), Took(i, Demand(size)), State())
      ensures HEADER <= Demand(size) ==> Valid()
      ensures head != NULL && HEADER <= Demand(size) ==>
                Step(old(chain), MemRun.Alloc(size, if ptr == NULL then None else Some(ptr)), chain)
    {
      i := 0;
      if head == NULL { return NULL, 0; }
      var d := Demand(size);
      var b := GetAvailable(d);
      if b == NULL { return NULL, 0; }
      i :| Chosen(chain, i, d) && chain[i].start == b;
      DemandIs(size);
      if Ready() { ReadyAfterCut(ready, chain, base, lenth, i, d); }
      ptr := Serve(b, d, i);
    }

    method Serve(b: int, d: nat, ghost i: nat) returns (ptr: int)
      requires Valid() && head != NULL && d % 8 == 0
      requires i < |chain| && chain[i].start == b && d <= chain[i].remain && 0 < chain[i].remain
      modifies this`mem, this`hash, this`ready, this`chain
      ensures Takes(old(chain), i, d, ptr, chain) && ptr != NULL
      ensures ready == CutReady(old(ready), old(chain)[i], d)
      ensures HEADER <= d ==> Valid()
    {
      ghost var m, h, r, c := mem, hash, ready, chain;
      BeforeCut(m, h, r, c, base, lenth, i, d);
      ptr := TakeTail(b, d, c[i]);
      chain := AllocAt(c, i, d);
      AfterCut(m, h, r, c, base, lenth, i, d, mem, hash, ready, chain);
    }

    /** The header writes of a merge; `block` is the block that remains. */
    method MergeHeaders(b: int) returns (block: int)
      requires b in mem && 0 <= mem[b].lenth
      requires mem[b].prev != NULL ==> IsValid(mem[b].prev) && mem[b].prev in mem && mem[b].prev != b && 0 <= mem[mem[b].prev].remain
      requires mem[b].next != NULL ==> mem[b].next in mem && mem[mem[b].next].prev == b
      requires mem[b].next != b && (mem[b].next != NULL ==> mem[b].next != mem[b].prev)
      modifies this`mem
      ensures mem == FreeMemory(old(mem), b, false, Dead(old(mem[b])))
      ensures block == (if old(mem[b].prev) == NULL then b else old(mem[b].prev)) && block in mem
      ensures mem[block].remain == old(mem[b].lenth) + (if old(mem[b].prev) == NULL then 0 else old(mem[mem[b].prev].remain))
    {
      var h := mem[b];
      block := b;
      if IsValid(h.prev) {
        mem := mem[b := Dead(h)];
        var a := mem[h.prev];
        mem := mem[h.prev := a.(lenth := a.lenth + h.lenth, remain := a.remain + h.lenth, next := h.next)];
        block := h.prev;
      } else {
        mem := mem[b := h.(magic := false, remain := h.lenth)];
      }
      if IsValid(h.next) { mem := mem[h.next := mem[h.next].(prev := block)]; }
    }

    /** Merge block `b` into its left neighbour, or make it idle if it is the first.  A link that is not
        initialised is followed to wherever its bytes point: nothing is known after that. */
    method GiveBack(b: int) returns (wild: bool)
      requires |hash| == CLASSES && b in mem && 0 <= mem[b].lenth
      requires mem[b].prev != NULL ==> IsValid(mem[b].prev) && mem[b].prev in mem && mem[b].prev != b && 0 <= mem[mem[b].prev].remain
      requires mem[b].next != NULL ==> mem[b].next in mem && mem[mem[b].next].prev == b
      requires mem[b].next != b && (mem[b].next != NULL ==> mem[b].next != mem[b].prev)
      modifies this`mem, this`hash, this`ready
      ensures wild <==> !(b in old(ready) && (old(mem[b].prev) == NULL || old(mem[b].prev) in old(ready)))
      ensures !wild ==> mem == FreeMemory(old(mem), b, false, Dead(old(mem[b])))
      ensures !wild ==> hash == (var h := Unlinked(old(hash), b);
                                 if old(mem[b].prev) == NULL then Attached(h, b, old(mem[b].lenth))
                                 else Attached(Unlinked(h, old(mem[b].prev)), old(mem[b].prev),
                                               old(mem[mem[b].prev].remain + mem[b].lenth)))
      ensures !wild ==> ready == old(ready)
    {
      if b !in ready { return true; }
      Detach(b);
      if IsValid(mem[b].prev) {
        if mem[b].prev !in ready { return true; }
        Detach(mem[b].prev);
      }
      var block := MergeHeaders(b);
      Attach(block);
      return false;
    }

    /** Give back a region.  A pointer that is not the start of a live region is ignored, and so is one
        that reads as an error code.  `wild` says that a list link was followed that is not initialised;
        the pool may then be anything.  Otherwise the pool stays sound exactly when the right neighbour
        does not read as an error code, or needs no telling. */
    method Free(ptr: int) returns (wild: bool)
      requires Valid()
      modifies this`mem, this`hash, this`ready, this`chain
      ensures wild <==> IsValid(ptr) && WildAt(old(ready), old(chain), ptr)
      ensures !wild ==> chain == (if IsValid(ptr) then FreeChain(old(chain), ptr) else old(chain)) && ready == old(ready)
      ensures !wild ==> (Valid() <==> !IsValid(ptr) || SeenAt(old(chain), ptr))
      ensures !wild && IsValid(ptr) ==> Happens(old(State()), Gave(ptr), State())
      ensures old(Ready()) ==> !wild && Ready()
    {
      if !IsValid(ptr) { return false; }
      var b := ptr - HEADER;
      if !IsValid(b) || b !in mem || !mem[b].magic || mem[b].base != ptr {
        if head != NULL {
          NotLive(mem, chain, base, lenth, ptr);
          NotWild(ready, chain, base, lenth, ptr);
        }
        return false;
      }
      assert IsStart(chain, b);
      ghost var i: nat :| i < |chain| && chain[i].start == b;
      FreeBlockAt(chain, base, lenth, i);
      OnlyStart(chain, base, lenth, i);
      wild := Release(b, i);
    }

    method Release(b: int, ghost i: nat) returns (wild: bool)
      requires Valid() && head != NULL && IsValid(b)
      requires i < |chain| && chain[i].start == b && forall j: nat | j < |chain| && chain[j].start == b :: j == i
      modifies this`mem, this`hash, this`ready, this`chain
      ensures wild <==> WildAt(old(ready), old(chain), b + HEADER)
      ensures !wild ==> chain == FreeAt(old(chain), i) && ready == old(ready) && (Valid() <==> Seen(old(chain), i))
      ensures old(Ready()) ==> !wild && Ready()
    {
      HeadersOfFree(mem, chain, base, lenth, i);
      assert WildAt(ready, chain, b + HEADER) <==> UnreadyAt(ready, chain, i, b + HEADER);
      wild := GiveBack(b);
      if wild { return; }
      LinksAfterMerge(ready, chain, i);
      if Ready() { ReadyAfterMerge(ready, chain, i); }
      chain := FreeAt(chain, i);
      SoundAfterFree(old(mem), old(hash), old(chain), base, lenth, i, mem, hash, chain);
    }

    /** The user writes `n` bytes at `at`, inside a region `r` it holds. */
    method Store(at: int, n: nat, ghost r: (int, int))
      requires Valid() && head != NULL && r in Live(chain) && r.0 <= at && at + n <= r.0 + r.1
      modifies this`ready
      ensures Valid() && ready == Overwritten(old(ready), at, n)
      ensures Happens(old(State()), Stored(at, n, r), State())
      ensures old(Ready()) ==> Ready()
      ensures forall ptr :: WildAt(ready, chain, ptr) <==> WildAt(old(ready), chain, ptr)
    {
      LinksAfterStore(ready, chain, base, lenth, r, at, n);
      StoreKeepsWild(ready, chain, at, n);
      ready := Overwritten(ready, at, n);
    }
  }

  /** In a pool that ends below the error codes every pointer to a block counts as one. */
  lemma LowPool(c: Chain, base: nat, len: nat, ptr: int)
    requires Good(c, base, len) && 0 < base && base + len < ERR_BASE
    ensures SeenAt(c, ptr)
    ensures !IsValid(ptr) ==> FreeChain(c, ptr) == c && forall ready :: !WildAt(ready, c, ptr)
  {
    var i := Find(c, ptr);
    if i < |c| { LowIsValid(c, base, len, i); }
    if !IsValid(ptr) {
      forall ready, j: nat ensures !UnreadyAt(ready, c, j, ptr) {
        if j < |c| { LowIsValid(c, base, len, j); }
      }
    }
  }

  lemma OnlyStart(c: Chain, base: nat, len: nat, i: nat)
    requires Good(c, base, len) && i < |c|
    ensures forall j: nat | j < |c| && c[j].start == c[i].start :: j == i
  {
    forall j: nat | j < |c| && c[j].start == c[i].start ensures j == i { StartsDistinct(c, base, len, i, j); }
  }

  /** What a merged header is left as. */
  function Dead(h: Header): Header { h.(magic := false, remain := h.lenth, prev := NULL) }

  /** Without the magic word in front of it, a pointer names no live region. */
  lemma NotLive(mem: Memory, c: Chain, base: nat, len: nat, ptr: int)
    requires Good(c, base, len) && Mirrors(mem, c) && 0 < base
    requires ptr - HEADER == NULL || ptr - HEADER !in mem || !mem[ptr - HEADER].magic || mem[ptr - HEADER].base != ptr
    ensures FreeChain(c, ptr) == c && SeenAt(c, ptr)
    ensures forall i: nat | i < |c| && c[i].start + HEADER == ptr :: c[i].Used() < HEADER
  {
    forall i: nat | i < |c| && c[i].start + HEADER == ptr ensures c[i].Used() < HEADER {
      assert HeaderOk(mem, c, i) && OkAt(c, i);
      BlockInside(c, base, len, i);
    }
    var f := Find(c, ptr);
    if f < |c| {
      assert OkAt(c, f);
      assert FreeAt(c, 0) == c;
    }
  }

  lemma HeaderFacts(mem: Memory, c: Chain, base: nat, len: nat, i: nat)
    requires Good(c, base, len) && Mirrors(mem, c) && 0 < base && i < |c|
    ensures HeaderOk(mem, c, i) && OkAt(c, i)
    ensures mem[c[i].start].next in mem.Keys + {NULL} && mem[c[i].start].prev in mem.Keys + {NULL}
    ensures mem[c[i].start].next != c[i].start && mem[c[i].start].prev != c[i].start && base <= c[i].start
  {
    LinksPresent(mem, c, i);
    BlockInside(c, base, len, i);
    if 0 < i { BlocksApart(c, base, len, i - 1, i); }
    if i + 1 < |c| { BlocksApart(c, base, len, i, i + 1); }
  }

  lemma ChosenIn(c: Chain, k: nat, d: nat, r: int) returns (i: nat)
    requires r != NULL && FoundIn(c, k, d, r)
    requires forall b | b in c && 0 < b.remain && ClassOf(b.remain) < k :: b.remain < d
    ensures Chosen(c, i, d) && c[i].start == r
  {
    var b :| b in c && Listed(b, k) && d <= b.remain && b.start == r;
    i :| 0 <= i < |c| && c[i] == b;
    ChosenByClass(c, i, d);
  }
}
