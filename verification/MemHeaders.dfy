/** Block headers in memory, and how they spell out a chain. */
module MemHeaders {
  import opened Machine
  import opened MemChain

  /** The header fields of one block; `magic` says whether the magic word is in place. */
  datatype Header = Header(magic: bool, base: int, lenth: int, remain: int, prev: int, next: int)

  type Memory = map<int, Header>

  function PrevOf(c: Chain, i: nat): int
    requires i < |c|
  {
    if i == 0 then NULL else c[i - 1].start
  }

  function NextOf(c: Chain, i: nat): int
    requires i < |c|
  {
    if i + 1 < |c| then c[i + 1].start else NULL
  }

  predicate HeaderIs(h: Header, b: Block, prev: int, next: int) {
    && h.base == b.start + HEADER
    && h.lenth == b.lenth
    && h.remain == b.remain
    && h.prev == prev
    && h.next == next
    && (HEADER <= b.Used() ==> h.magic)
  }

  /** The header of block `i` carries its lengths, and its links name its two neighbours. */
  ghost predicate HeaderOk(mem: Memory, c: Chain, i: nat)
    requires i < |c|
  {
    c[i].start in mem && HeaderIs(mem[c[i].start], c[i], PrevOf(c, i), NextOf(c, i))
  }

  ghost predicate Mirrors(mem: Memory, c: Chain) {
    forall i: nat | i < |c| :: HeaderOk(mem, c, i)
  }

  /** No address carries the magic word but block headers. */
  ghost predicate Marked(mem: Memory, c: Chain) {
    forall a | a in mem && mem[a].magic :: IsStart(c, a)
  }

  ghost predicate IsStart(c: Chain, a: int) { exists i :: 0 <= i < |c| && c[i].start == a }

  /** Headers written when the tail of block `b` is cut off. */
  function CutMemory(mem: Memory, b: int, d: nat): Memory
    requires b in mem && mem[b].next in mem.Keys + {NULL}
  {
    var h := mem[b];
    if h.lenth == h.remain then
      mem[b := h.(magic := true, remain := h.remain - d)]
    else
      var n := h.base + h.lenth - h.remain - HEADER;
      var m := mem[n := Header(true, n + HEADER, h.remain, h.remain - d, b, h.next)];
      var m := if h.next == NULL || h.next !in m then m else m[h.next := m[h.next].(prev := n)];
      m[b := h.(lenth := h.lenth - h.remain, remain := 0, next := n)]
  }

  /** Headers written when block `b` is given back; `dead` is what a merged header is left as. */
  function MergeMemory(mem: Memory, b: int, mark: bool, dead: Header): Memory
    requires b in mem
  {
    var h := mem[b];
    if h.prev == NULL || h.prev !in mem then
      mem[b := h.(magic := mark, remain := h.lenth)]
    else
      var a := mem[h.prev];
      var m := mem[b := dead];
      var m := m[h.prev := a.(lenth := a.lenth + h.lenth, remain := a.remain + h.lenth, next := h.next)];
      if h.next == NULL || h.next !in m then m else m[h.next := m[h.next].(prev := h.prev)]
  }

  /** Headers as they are left when block `b` is given back: a right neighbour that does not count as a
      valid pointer is not told of its new left neighbour. */
  function FreeMemory(mem: Memory, b: int, mark: bool, dead: Header): Memory
    requires b in mem
  {
    var h, m := mem[b], MergeMemory(mem, b, mark, dead);
    if h.prev == NULL || h.prev !in mem || h.next == NULL || h.next !in mem || IsValid(h.next) then m
    else m[h.next := mem[h.next]]
  }

  /** Giving back block `i` reaches every header it has to. */
  predicate Seen(c: Chain, i: nat)
    requires i < |c|
  {
    i == 0 || i + 1 == |c| || IsValid(c[i + 1].start)
  }

  /** The block at `ptr`, if there is one, can be given back without losing sight of a header. */
  predicate SeenAt(c: Chain, ptr: int) { var i := Find(c, ptr); i < |c| ==> Seen(c, i) }

  lemma LinksPresent(mem: Memory, c: Chain, i: nat)
    requires Mirrors(mem, c) && i < |c|
    ensures HeaderOk(mem, c, i)
    ensures PrevOf(c, i) in mem.Keys + {NULL} && NextOf(c, i) in mem.Keys + {NULL}
    ensures NextOf(c, i) in mem || i + 1 == |c|
  {
    assert HeaderOk(mem, c, i);
    if 0 < i { assert HeaderOk(mem, c, i - 1); }
    if i + 1 < |c| { assert HeaderOk(mem, c, i + 1); }
  }

  lemma OtherBlock(c: Chain, base: nat, len: nat, i: nat, j: nat)
    requires Good(c, base, len) && i < |c| && j < |c| && i != j
    ensures c[j].start != c[i].start
    ensures c[j].start < c[i].start || c[i].End() <= c[j].start
  {
    if i < j { BlocksApart(c, base, len, i, j); } else { BlocksApart(c, base, len, j, i); }
  }

  lemma CutShape(c: Chain, i: nat, d: nat, k: nat)
    requires i < |c| && c[i].remain < c[i].lenth && k <= |c|
    ensures var c', n := AllocAt(c, i, d), c[i].start + c[i].Used();
            && |c'| == |c| + 1
            && c'[k] == (if k < i then c[k] else if k == i then Block(c[i].start, c[i].Used(), 0)
                         else if k == i + 1 then Block(n, c[i].remain, c[i].remain - d) else c[k - 1])
            && PrevOf(c', k) == (if k <= i then PrevOf(c, k) else if k == i + 1 then c[i].start
                                 else if k == i + 2 then n else PrevOf(c, k - 1))
            && NextOf(c', k) == (if k < i then NextOf(c, k) else if k == i then n else NextOf(c, k - 1))
  {
  }

  /** `mem'` differs from `mem` at most at the three given addresses. */
  ghost predicate SameBut(mem: Memory, mem': Memory, x: int, y: int, z: int) {
    forall a | a in mem && a != x && a != y && a != z :: a in mem' && mem'[a] == mem[a]
  }

  /** What cutting the tail off block `i` has to leave in memory. */
  ghost predicate CutEffect(mem: Memory, mem': Memory, c: Chain, i: nat, d: nat)
    requires i < |c| && c[i].remain < c[i].lenth
  {
    var b, n := c[i].start, c[i].start + c[i].Used();
    && SameBut(mem, mem', b, n, NextOf(c, i))
    && b in mem' && HeaderIs(mem'[b], Block(b, c[i].Used(), 0), PrevOf(c, i), n)
    && n in mem' && HeaderIs(mem'[n], Block(n, c[i].remain, c[i].remain - d), b, NextOf(c, i))
    && (i + 1 < |c| ==> c[i + 1].start in mem' && HeaderIs(mem'[c[i + 1].start], c[i + 1], n, NextOf(c, i + 1)))
  }

  lemma CutMirrorsAt(mem: Memory, mem': Memory, c: Chain, base: nat, len: nat, i: nat, d: nat, k: nat)
    requires Good(c, base, len) && 0 < base
    requires i < |c| && c[i].remain < c[i].lenth && 0 < c[i].remain && k <= |c|
    requires Mirrors(mem, c) && CutEffect(mem, mem', c, i, d)
    ensures |AllocAt(c, i, d)| == |c| + 1
    ensures HeaderOk(mem', AllocAt(c, i, d), k)
  {
    CutShape(c, i, d, k);
    if k < i || i + 1 < k {
      var j := if k < i then k else k - 1;
      assert HeaderOk(mem, c, j);
      BlockInside(c, base, len, j);
      OtherBlock(c, base, len, i, j);
      if i + 1 < |c| && j != i + 1 { OtherBlock(c, base, len, i + 1, j); }
    }
  }

  lemma CutMemoryEffect(mem: Memory, c: Chain, base: nat, len: nat, i: nat, d: nat)
    requires Good(c, base, len) && 0 < base
    requires i < |c| && c[i].remain < c[i].lenth && 0 < c[i].remain
    requires HeaderOk(mem, c, i) && (i + 1 == |c| || HeaderOk(mem, c, i + 1))
    ensures mem[c[i].start].next in mem.Keys + {NULL}
    ensures CutEffect(mem, CutMemory(mem, c[i].start, d), c, i, d)
  {
    if i + 1 < |c| {
      BlocksApart(c, base, len, i, i + 1);
      BlockInside(c, base, len, i + 1);
    }
  }

  /** Cutting a block in memory mirrors taking its tail in the chain. */
  lemma CutMirrors(mem: Memory, c: Chain, base: nat, len: nat, i: nat, d: nat)
    requires Good(c, base, len) && Mirrors(mem, c) && 0 < base
    requires i < |c| && d <= c[i].remain && 0 < c[i].remain
    ensures HeaderOk(mem, c, i) && mem[c[i].start].next in mem.Keys + {NULL}
    ensures Mirrors(CutMemory(mem, c[i].start, d), AllocAt(c, i, d))
  {
    LinksPresent(mem, c, i);
    var mem', c' := CutMemory(mem, c[i].start, d), AllocAt(c, i, d);
    forall k: nat | k < |c'| ensures HeaderOk(mem', c', k) {
      if c[i].Idle() {
        assert HeaderOk(mem, c, k);
        if k != i { OtherBlock(c, base, len, i, k); }
      } else {
        assert OkAt(c, i);
        if i + 1 < |c| { assert HeaderOk(mem, c, i + 1); }
        CutMemoryEffect(mem, c, base, len, i, d);
        CutMirrorsAt(mem, mem', c, base, len, i, d, k);
      }
    }
  }

  lemma CutStarts(c: Chain, i: nat, d: nat, a: int)
    requires i < |c| && d <= c[i].remain <= c[i].lenth
    requires IsStart(c, a) || a == c[i].start + c[i].Used()
    ensures IsStart(AllocAt(c, i, d), a)
  {
    var c' := AllocAt(c, i, d);
    if IsStart(c, a) {
      var j :| 0 <= j < |c| && c[j].start == a;
      assert c'[if j <= i || c[i].Idle() then j else j + 1].start == a;
    } else {
      assert c'[i + 1].start == a;
    }
  }

  lemma CutKeepsMarked(mem: Memory, c: Chain, i: nat, d: nat)
    requires Marked(mem, c) && i < |c| && d <= c[i].remain <= c[i].lenth
    requires HeaderOk(mem, c, i) && mem[c[i].start].next in mem.Keys + {NULL}
    ensures Marked(CutMemory(mem, c[i].start, d), AllocAt(c, i, d))
  {
    var mem' := CutMemory(mem, c[i].start, d);
    forall a | a in mem' && mem'[a].magic ensures IsStart(AllocAt(c, i, d), a) {
      assert a == c[i].start || a == c[i].start + c[i].Used() || (a in mem && mem[a].magic);
      CutStarts(c, i, d, a);
    }
  }

  lemma MergeStarts(c: Chain, i: nat, a: int)
    requires i < |c| && IsStart(c, a) && (i == 0 || a != c[i].start)
    ensures IsStart(FreeAt(c, i), a)
  {
    var j :| 0 <= j < |c| && c[j].start == a;
    assert FreeAt(c, i)[if j < i || i == 0 then j else j - 1].start == a;
  }

  lemma MergeKeepsMarked(mem: Memory, c: Chain, i: nat, mark: bool, dead: Header)
    requires Marked(mem, c) && i < |c| && !dead.magic
    requires HeaderOk(mem, c, i) && (0 < i ==> HeaderOk(mem, c, i - 1) && c[i - 1].start != NULL)
    requires 0 < i ==> c[i].start != c[i - 1].start && c[i].start != NextOf(c, i)
    ensures Marked(MergeMemory(mem, c[i].start, mark, dead), FreeAt(c, i))
  {
    var mem' := MergeMemory(mem, c[i].start, mark, dead);
    forall a | a in mem' && mem'[a].magic ensures IsStart(FreeAt(c, i), a) {
      if a != c[i].start { assert a in mem && (mem[a].magic || (0 < i && a == c[i - 1].start)); }
      assert IsStart(c, a);
      MergeStarts(c, i, a);
    }
  }

  lemma MergeShape(c: Chain, i: nat, k: nat)
    requires 0 < i < |c| && k + 1 < |c|
    ensures var c' := FreeAt(c, i);
            && |c'| == |c| - 1
            && c'[k] == (if k < i - 1 then c[k]
                         else if k == i - 1 then Block(c[k].start, c[k].lenth + c[i].lenth, c[k].remain + c[i].lenth)
                         else c[k + 1])
            && PrevOf(c', k) == (if k <= i - 1 then PrevOf(c, k) else if k == i then c[i - 1].start else PrevOf(c, k + 1))
            && NextOf(c', k) == (if k < i - 1 then NextOf(c, k) else NextOf(c, k + 1))
  {
  }

  /** What merging block `i` into its left neighbour has to leave in memory. */
  ghost predicate MergeEffect(mem: Memory, mem': Memory, c: Chain, i: nat)
    requires 0 < i < |c|
  {
    var a, b := c[i - 1], c[i];
    && SameBut(mem, mem', b.start, a.start, NextOf(c, i))
    && a.start in mem'
    && HeaderIs(mem'[a.start], Block(a.start, a.lenth + b.lenth, a.remain + b.lenth), PrevOf(c, i - 1), NextOf(c, i))
    && (i + 1 < |c| ==> c[i + 1].start in mem' && HeaderIs(mem'[c[i + 1].start], c[i + 1], a.start, NextOf(c, i + 1)))
  }

  lemma MergeMirrorsAt(mem: Memory, mem': Memory, c: Chain, base: nat, len: nat, i: nat, k: nat)
    requires Good(c, base, len) && 0 < base
    requires 0 < i < |c| && k + 1 < |c|
    requires Mirrors(mem, c) && MergeEffect(mem, mem', c, i)
    ensures |FreeAt(c, i)| == |c| - 1
    ensures HeaderOk(mem', FreeAt(c, i), k)
  {
    MergeShape(c, i, k);
    if k != i - 1 && k != i {
      var j := if k < i then k else k + 1;
      assert HeaderOk(mem, c, j);
      BlockInside(c, base, len, j);
      OtherBlock(c, base, len, i, j);
      OtherBlock(c, base, len, i - 1, j);
      if i + 1 < |c| { OtherBlock(c, base, len, i + 1, j); }
    }
  }

  lemma MergeMemoryEffect(mem: Memory, c: Chain, base: nat, len: nat, i: nat, mark: bool, dead: Header)
    requires Good(c, base, len) && 0 < base
    requires 0 < i < |c|
    requires HeaderOk(mem, c, i - 1) && HeaderOk(mem, c, i) && (i + 1 == |c| || HeaderOk(mem, c, i + 1))
    ensures MergeEffect(mem, MergeMemory(mem, c[i].start, mark, dead), c, i)
  {
    BlocksApart(c, base, len, i - 1, i);
    BlockInside(c, base, len, i - 1);
    if i + 1 < |c| { BlocksApart(c, base, len, i, i + 1); }
  }

  /** Merging a block in memory mirrors giving it back in the chain. */
  lemma MergeMirrors(mem: Memory, c: Chain, base: nat, len: nat, i: nat, mark: bool, dead: Header)
    requires Good(c, base, len) && Mirrors(mem, c) && 0 < base
    requires i < |c|
    ensures HeaderOk(mem, c, i)
    ensures Mirrors(MergeMemory(mem, c[i].start, mark, dead), FreeAt(c, i))
  {
    LinksPresent(mem, c, i);
    var mem', c' := MergeMemory(mem, c[i].start, mark, dead), FreeAt(c, i);
    forall k: nat | k < |c'| ensures HeaderOk(mem', c', k) {
      if i == 0 {
        assert HeaderOk(mem, c, k);
        if k != 0 { OtherBlock(c, base, len, 0, k); }
      } else {
        assert HeaderOk(mem, c, i - 1);
        if i + 1 < |c| { assert HeaderOk(mem, c, i + 1); }
        MergeMemoryEffect(mem, c, base, len, i, mark, dead);
        MergeMirrorsAt(mem, mem', c, base, len, i, k);
      }
    }
  }

  /** The headers left by a free mirror the chain exactly when the right neighbour was told. */
  lemma FreeMirrors(mem: Memory, c: Chain, base: nat, len: nat, i: nat, mark: bool, dead: Header)
    requires Good(c, base, len) && Mirrors(mem, c) && 0 < base
    requires i < |c|
    ensures HeaderOk(mem, c, i)
    ensures Mirrors(FreeMemory(mem, c[i].start, mark, dead), FreeAt(c, i)) <==> Seen(c, i)
    ensures Seen(c, i) ==> FreeMemory(mem, c[i].start, mark, dead) == MergeMemory(mem, c[i].start, mark, dead)
  {
    MergeMirrors(mem, c, base, len, i, mark, dead);
    if !Seen(c, i) {
      assert HeaderOk(mem, c, i - 1) && HeaderOk(mem, c, i + 1);
      BlocksApart(c, base, len, i - 1, i);
      BlockInside(c, base, len, i - 1);
      MergeShape(c, i, i);
      assert !HeaderOk(FreeMemory(mem, c[i].start, mark, dead), FreeAt(c, i), i);
    }
  }

  lemma LowIsValid(c: Chain, base: nat, len: nat, i: nat)
    requires Good(c, base, len) && 0 < base && base + len < ERR_BASE && i < |c|
    ensures IsValid(c[i].start) && IsValid(c[i].start + HEADER) && Seen(c, i)
  {
    assert OkAt(c, i);
    BlockInside(c, base, len, i);
    if i + 1 < |c| { BlockInside(c, base, len, i + 1); }
  }
}
