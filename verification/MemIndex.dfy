/** The size-class index of the block allocator: fourteen lists of block addresses, chosen by
    how much of a block is unused. */
module MemIndex {
  import opened Machine
  import opened MemChain

  const LOWER_BYTES: nat := 4
  const HIGH_BYTES: nat := 13
  const CLASSES: nat := 14
  const LOWER_LIMIT: nat := 32
  const HIGH_LIMIT: nat := 8192

  /** The class of an unused tail: [0, 31] is class 4, [2^k, 2^(k+1)) is class k, and
      everything from 8192 on is class 13. */
  function ClassOf(remain: int): (k: nat)
    ensures LOWER_BYTES <= k <= HIGH_BYTES
  {
    if remain < 32 then 4
    else if remain < 64 then 5
    else if remain < 128 then 6
    else if remain < 256 then 7
    else if remain < 512 then 8
    else if remain < 1024 then 9
    else if remain < 2048 then 10
    else if remain < 4096 then 11
    else if remain < 8192 then 12
    else 13
  }

  /** Between the limits a class is a range from one power of two to the next. */
  lemma ClassIsPower(n: int)
    ensures 32 <= n < 8192 ==> Pow2(ClassOf(n)) <= n < Pow2(ClassOf(n) + 1)
    ensures n < 32 ==> ClassOf(n) == 4
    ensures 8192 <= n ==> ClassOf(n) == 13
  {
    ClassBounds();
  }

  lemma ClassBounds()
    ensures Pow2(5) == 32 && Pow2(6) == 64 && Pow2(7) == 128 && Pow2(8) == 256 && Pow2(9) == 512 && Pow2(10) == 1024
    ensures Pow2(11) == 2048 && Pow2(12) == 4096 && Pow2(13) == 8192 && Pow2(14) == 16384
  {
  }

  predicate Listed(b: Block, k: nat) { 0 < b.remain && ClassOf(b.remain) == k }

  /** The addresses of the blocks in class `k`, in chain order. */
  function ClassList(c: Chain, k: nat): seq<int> {
    if c == [] then []
    else (if Listed(c[0], k) then [c[0].start] else []) + ClassList(c[1..], k)
  }

  /** `hash` is the exact index of chain `c`. */
  ghost predicate Exact(hash: seq<seq<int>>, c: Chain) {
    && |hash| == CLASSES
    && forall k: nat | k < CLASSES :: ListOk(hash, c, k)
  }

  ghost predicate ListOk(hash: seq<seq<int>>, c: Chain, k: nat)
    requires k < |hash|
  {
    hash[k] == ClassList(c, k)
  }

  /** No limit from 32 to 8192 that doubles from one to the next lies above `n` and not above `m`. */
  ghost predicate NoHigher(m: int, n: int) { forall k: nat | 5 <= k <= 13 && n < Pow2(k) :: m < Pow2(k) }

  /** Block `i` is the one to serve `d` bytes from: it is large enough, no large enough block is in a
      lower power-of-two range, and none in the same range is at a lower address. */
  ghost predicate Chosen(c: Chain, i: nat, d: nat) {
    && i < |c|
    && d <= c[i].remain && 0 < c[i].remain
    && forall b | b in c && d <= b.remain && 0 < b.remain ::
         NoHigher(c[i].remain, b.remain) && (NoHigher(b.remain, c[i].remain) ==> c[i].start <= b.start)
  }

  /** The classes are the power-of-two ranges in ascending order. */
  lemma ClassesAscend(m: int, n: int)
    ensures NoHigher(m, n) <==> ClassOf(m) <= ClassOf(n)
  {
    ClassBounds();
    ClassIsPower(m);
    ClassIsPower(n);
    if ClassOf(m) <= ClassOf(n) {
      forall k: nat | 5 <= k <= 13 && n < Pow2(k) ensures m < Pow2(k) {
        assert k == 5 || k == 6 || k == 7 || k == 8 || k == 9 || k == 10 || k == 11 || k == 12 || k == 13;
      }
    } else {
      assert n < Pow2(ClassOf(n) + 1) <= m;
    }
  }

  lemma ChosenByClass(c: Chain, i: nat, d: nat)
    ensures Chosen(c, i, d) <==>
            && i < |c| && d <= c[i].remain && 0 < c[i].remain
            && forall b | b in c && d <= b.remain && 0 < b.remain ::
                 ClassOf(c[i].remain) < ClassOf(b.remain) || (ClassOf(c[i].remain) == ClassOf(b.remain) && c[i].start <= b.start)
  {
    if i < |c| {
      forall b | b in c
        ensures NoHigher(c[i].remain, b.remain) <==> ClassOf(c[i].remain) <= ClassOf(b.remain)
        ensures NoHigher(b.remain, c[i].remain) <==> ClassOf(b.remain) <= ClassOf(c[i].remain)
      {
        ClassesAscend(c[i].remain, b.remain);
        ClassesAscend(b.remain, c[i].remain);
      }
    }
  }

  // ---------------------------------------------------------------------------
  // Lists of addresses

  function Without(l: seq<int>, a: int): seq<int> {
    if l == [] then []
    else (if l[0] == a then [] else [l[0]]) + Without(l[1..], a)
  }

  /** Insert before the first larger address. */
  function Insert(l: seq<int>, a: int): seq<int> {
    if l == [] || a < l[0] then [a] + l else [l[0]] + Insert(l[1..], a)
  }

  lemma {:induction false} WithoutConcat(l: seq<int>, m: seq<int>, a: int)
    ensures Without(l + m, a) == Without(l, a) + Without(m, a)
  {
    if l == [] {
      assert l + m == m;
    } else {
      var first, rest := if l[0] == a then [] else [l[0]], l[1..];
      WithoutConcat(rest, m, a);
      assert (l + m)[0] == l[0] && (l + m)[1..] == rest + m;
      assert first + (Without(rest, a) + Without(m, a)) == first + Without(rest, a) + Without(m, a);
    }
  }

  lemma {:induction false} WithoutAbsent(l: seq<int>, a: int)
    requires a !in l
    ensures Without(l, a) == l
  {
    if l != [] { WithoutAbsent(l[1..], a); }
  }

  lemma InsertBetween(l: seq<int>, m: seq<int>, a: int)
    requires forall x | x in l :: x < a
    requires forall x | x in m :: a < x
    ensures Insert(l + m, a) == l + [a] + m
  {
    assert m != [] ==> m[0] in m;
    assert forall y | 0 <= y < |l| :: l[y] in l;
    InsertAt(l + m, a, |l|);
    assert (l + m)[..|l|] == l && (l + m)[|l|..] == m;
  }

  lemma {:induction false} InsertAt(l: seq<int>, a: int, x: nat)
    requires x <= |l| && (forall y | 0 <= y < x :: l[y] <= a) && (x < |l| ==> a < l[x])
    ensures Insert(l, a) == l[..x] + [a] + l[x..]
  {
    if 0 < x {
      InsertAt(l[1..], a, x - 1);
      assert l[..x] == [l[0]] + l[1..][..x - 1] && l[x..] == l[1..][x - 1..];
    }
  }

  // ---------------------------------------------------------------------------
  // Class lists

  lemma {:induction false} ClassListConcat(a: Chain, b: Chain, k: nat)
    ensures ClassList(a + b, k) == ClassList(a, k) + ClassList(b, k)
  {
    if a == [] {
      assert a + b == b;
    } else {
      var first, rest := if Listed(a[0], k) then [a[0].start] else [], a[1..];
      ClassListConcat(rest, b, k);
      assert (a + b)[0] == a[0] && (a + b)[1..] == rest + b;
      assert first + (ClassList(rest, k) + ClassList(b, k)) == first + ClassList(rest, k) + ClassList(b, k);
    }
  }

  lemma {:induction false} ClassListMember(c: Chain, k: nat, a: int) returns (i: nat)
    requires a in ClassList(c, k)
    ensures i < |c| && c[i].start == a && Listed(c[i], k)
  {
    if Listed(c[0], k) && c[0].start == a {
      i := 0;
    } else {
      assert a in ClassList(c[1..], k);
      i := ClassListMember(c[1..], k, a);
      i := i + 1;
    }
  }

  lemma {:induction false} ClassListHas(c: Chain, k: nat, i: nat)
    requires i < |c| && Listed(c[i], k)
    ensures c[i].start in ClassList(c, k)
  {
    if 0 < i { ClassListHas(c[1..], k, i - 1); }
  }

  /** Every class list is in ascending address order, so it holds each block once. */
  lemma {:induction false} ClassListAscends(c: Chain, base: nat, len: nat, k: nat, n: nat)
    requires Good(c, base, len) && n <= |c|
    ensures forall x, y | 0 <= x < y < |ClassList(c[n..], k)| :: ClassList(c[n..], k)[x] < ClassList(c[n..], k)[y]
    decreases |c| - n
  {
    if n < |c| {
      ClassListAscends(c, base, len, k, n + 1);
      assert c[n..][0] == c[n] && c[n..][1..] == c[n + 1..];
      var rest := ClassList(c[n + 1..], k);
      forall x | 0 <= x < |rest| ensures c[n].start < rest[x] {
        var i := ClassListMember(c[n + 1..], k, rest[x]);
        BlocksApart(c, base, len, n, n + 1 + i);
      }
    }
  }

  // ---------------------------------------------------------------------------
  // Keeping the index exact

  function Unlinked(hash: seq<seq<int>>, a: int): (r: seq<seq<int>>)
    ensures |r| == |hash|
  {
    seq(|hash|, k requires 0 <= k < |hash| => Without(hash[k], a))
  }

  function Attached(hash: seq<seq<int>>, a: int, remain: int): (r: seq<seq<int>>)
    requires |hash| == CLASSES
    ensures |r| == CLASSES
  {
    if remain <= 0 then hash else hash[ClassOf(remain) := Insert(hash[ClassOf(remain)], a)]
  }

  /** `hash` indexes the blocks of `pre` and `post`, which lie below and above the address `a`. */
  ghost predicate Around(hash: seq<seq<int>>, pre: Chain, post: Chain, a: int) {
    && |hash| == CLASSES
    && (forall k | 0 <= k < CLASSES :: hash[k] == ClassList(pre, k) + ClassList(post, k))
    && (forall b | b in pre :: b.start < a)
    && (forall b | b in post :: a < b.start)
  }

  lemma {:induction false} NotInList(c: Chain, k: nat, a: int)
    requires forall b | b in c :: b.start != a
    ensures a !in ClassList(c, k)
  {
    if c != [] {
      assert c[0] in c;
      assert forall b | b in c[1..] :: b in c;
      NotInList(c[1..], k, a);
    }
  }

  /** Unlinking a block leaves the index of the blocks on both sides of it. */
  lemma UnlinkBlock(hash: seq<seq<int>>, pre: Chain, x: Block, post: Chain)
    requires |hash| == CLASSES
    requires forall k | 0 <= k < CLASSES :: hash[k] == ClassList(pre + [x], k) + ClassList(post, k)
    requires forall b | b in pre :: b.start < x.start
    requires forall b | b in post :: x.start < b.start
    ensures Around(Unlinked(hash, x.start), pre, post, x.start)
  {
    forall k | 0 <= k < CLASSES ensures Unlinked(hash, x.start)[k] == ClassList(pre, k) + ClassList(post, k) {
      NotInList(pre, k, x.start);
      NotInList(post, k, x.start);
      WithoutBlock(pre, x, post, k);
    }
  }

  lemma WithoutMiddle(l: seq<int>, m: seq<int>, r: seq<int>, a: int)
    requires a !in l && a !in r && (m == [] || m == [a])
    ensures Without(l + m + r, a) == l + r
  {
    calc {
      Without(l + m + r, a);
      { WithoutConcat(l + m, r, a); }
      Without(l + m, a) + Without(r, a);
      { WithoutConcat(l, m, a); assert Without(m, a) == []; }
      Without(l, a) + [] + Without(r, a);
      { WithoutAbsent(l, a); WithoutAbsent(r, a); }
      l + r;
    }
  }

  lemma WithoutBlock(pre: Chain, x: Block, post: Chain, k: nat)
    requires x.start !in ClassList(pre, k) && x.start !in ClassList(post, k)
    ensures Without(ClassList(pre + [x], k) + ClassList(post, k), x.start) == ClassList(pre, k) + ClassList(post, k)
  {
    ClassListConcat(pre, [x], k);
    assert ClassList([x], k) == if Listed(x, k) then [x.start] else [];
    WithoutMiddle(ClassList(pre, k), ClassList([x], k), ClassList(post, k), x.start);
  }

  /** Attaching block `x` makes the index exact for a chain in which `x` is all that is listed
      between `pre` and `post`. */
  lemma AttachBlock(hash: seq<seq<int>>, pre: Chain, mid: Chain, post: Chain, x: Block)
    requires Around(hash, pre, post, x.start)
    requires forall k | 0 <= k < CLASSES :: ClassList(mid, k) == if Listed(x, k) then [x.start] else []
    ensures Exact(Attached(hash, x.start, x.remain), pre + mid + post)
  {
    forall k: nat | k < CLASSES ensures ListOk(Attached(hash, x.start, x.remain), pre + mid + post, k) {
      AttachClass(pre, mid, post, k, x.start, Listed(x, k));
    }
  }

  lemma AttachClass(pre: Chain, mid: Chain, post: Chain, k: nat, a: int, listed: bool)
    requires (forall b | b in pre :: b.start < a) && (forall b | b in post :: a < b.start)
    requires ClassList(mid, k) == if listed then [a] else []
    ensures ClassList(pre + mid + post, k)
         == if listed then Insert(ClassList(pre, k) + ClassList(post, k), a) else ClassList(pre, k) + ClassList(post, k)
  {
    ClassListConcat(pre + mid, post, k);
    ClassListConcat(pre, mid, k);
    if listed { InsertInClass(pre, post, k, a); }
  }

  lemma InsertInClass(pre: Chain, post: Chain, k: nat, a: int)
    requires forall b | b in pre :: b.start < a
    requires forall b | b in post :: a < b.start
    ensures Insert(ClassList(pre, k) + ClassList(post, k), a) == ClassList(pre, k) + [a] + ClassList(post, k)
  {
    forall x | x in ClassList(pre, k) ensures x < a {
      var i := ClassListMember(pre, k, x);
      assert pre[i] in pre;
    }
    forall x | x in ClassList(post, k) ensures a < x {
      var i := ClassListMember(post, k, x);
      assert post[i] in post;
    }
    InsertBetween(ClassList(pre, k), ClassList(post, k), a);
  }

  /** The blocks on both sides of block `i` lie below and above it. */
  lemma SidesOf(c: Chain, base: nat, len: nat, i: nat, j: nat)
    requires Good(c, base, len) && i <= j < |c|
    ensures forall b | b in c[..i] :: b.start < c[i].start
    ensures forall b | b in c[j + 1..] :: c[j].End() <= b.start
    ensures OkAt(c, i) && OkAt(c, j)
  {
    forall b | b in c[..i] ensures b.start < c[i].start {
      var k :| 0 <= k < i && c[k] == b;
      BlocksApart(c, base, len, k, i);
    }
    forall b | b in c[j + 1..] ensures c[j].End() <= b.start {
      var k :| 0 <= k < |c[j + 1..]| && c[j + 1..][k] == b;
      BlocksApart(c, base, len, j, j + 1 + k);
    }
  }

  /** The one block of `Cut(b, d)` that may still have unused space. */
  function CutTail(b: Block, d: nat): Block {
    Block(b.start + b.Used(), b.remain, b.remain - d)
  }

  lemma CutLists(b: Block, d: nat, k: nat)
    ensures ClassList(Cut(b, d), k) == if Listed(CutTail(b, d), k) then [CutTail(b, d).start] else []
  {
    var m := Cut(b, d);
    if b.Idle() {
      assert m == [CutTail(b, d)];
    } else {
      assert m[1..] == [CutTail(b, d)];
      assert ClassList(m, k) == ClassList(m[1..], k);
    }
  }

  lemma ExactSplit(hash: seq<seq<int>>, c: Chain, i: nat)
    requires Exact(hash, c) && i < |c|
    ensures forall k | 0 <= k < CLASSES :: hash[k] == ClassList(c[..i] + [c[i]], k) + ClassList(c[i + 1..], k)
  {
    forall k | 0 <= k < CLASSES ensures hash[k] == ClassList(c[..i] + [c[i]], k) + ClassList(c[i + 1..], k) {
      assert ListOk(hash, c, k);
      assert c == c[..i] + [c[i]] + c[i + 1..];
      ClassListConcat(c[..i] + [c[i]], c[i + 1..], k);
    }
  }

  /** Unlinking the block that is cut and linking its tail keeps the index exact. */
  lemma AllocKeepsIndex(hash: seq<seq<int>>, c: Chain, base: nat, len: nat, i: nat, d: nat)
    requires Good(c, base, len) && Exact(hash, c)
    requires i < |c| && d <= c[i].remain && 0 < c[i].remain
    ensures var x := CutTail(c[i], d);
            Exact(Attached(Unlinked(hash, c[i].start), x.start, x.remain), AllocAt(c, i, d))
  {
    var pre, b, post := c[..i], c[i], c[i + 1..];
    var x := CutTail(b, d);
    SidesOf(c, base, len, i, i);
    ExactSplit(hash, c, i);
    UnlinkBlock(hash, pre, b, post);
    forall k | 0 <= k < CLASSES ensures ClassList(Cut(b, d), k) == if Listed(x, k) then [x.start] else [] {
      CutLists(b, d, k);
    }
    AttachBlock(Unlinked(hash, b.start), pre, Cut(b, d), post, x);
  }

  lemma UnlinkRight(hash: seq<seq<int>>, c: Chain, base: nat, len: nat, i: nat)
    requires Good(c, base, len) && Exact(hash, c)
    requires 0 < i < |c|
    ensures Around(Unlinked(hash, c[i].start), c[..i - 1] + [c[i - 1]], c[i + 1..], c[i].start)
  {
    assert c[..i] == c[..i - 1] + [c[i - 1]];
    SidesOf(c, base, len, i, i);
    ExactSplit(hash, c, i);
    UnlinkBlock(hash, c[..i], c[i], c[i + 1..]);
  }

  lemma UnlinkBoth(hash: seq<seq<int>>, c: Chain, base: nat, len: nat, i: nat)
    requires Good(c, base, len) && Exact(hash, c)
    requires 0 < i < |c|
    ensures Around(Unlinked(Unlinked(hash, c[i].start), c[i - 1].start), c[..i - 1], c[i + 1..], c[i - 1].start)
  {
    UnlinkRight(hash, c, base, len, i);
    SidesOf(c, base, len, i - 1, i);
    BlocksApart(c, base, len, i - 1, i);
    UnlinkBlock(Unlinked(hash, c[i].start), c[..i - 1], c[i - 1], c[i + 1..]);
  }

  /** Unlinking the freed block and its left neighbour and linking the merged block keeps the
      index exact. */
  lemma FreeKeepsIndex(hash: seq<seq<int>>, c: Chain, base: nat, len: nat, i: nat)
    requires Good(c, base, len) && Exact(hash, c)
    requires 0 < i < |c|
    ensures Exact(Attached(Unlinked(Unlinked(hash, c[i].start), c[i - 1].start), c[i - 1].start, c[i - 1].remain + c[i].lenth),
                  FreeAt(c, i))
  {
    UnlinkBoth(hash, c, base, len, i);
    var m := Block(c[i - 1].start, c[i - 1].lenth + c[i].lenth, c[i - 1].remain + c[i].lenth);
    AttachBlock(Unlinked(Unlinked(hash, c[i].start), m.start), c[..i - 1], [m], c[i + 1..], m);
  }

  /** The same for the first block, which becomes idle. */
  lemma FreeHeadKeepsIndex(hash: seq<seq<int>>, c: Chain, base: nat, len: nat)
    requires Good(c, base, len) && Exact(hash, c)
    ensures Exact(Attached(Unlinked(hash, c[0].start), c[0].start, c[0].lenth), FreeAt(c, 0))
  {
    var b, post := c[0], c[1..];
    var m := b.(remain := b.lenth);
    SidesOf(c, base, len, 0, 0);
    ExactSplit(hash, c, 0);
    assert c[..0] == [];
    UnlinkBlock(hash, [], b, post);
    AttachBlock(Unlinked(hash, b.start), [], [m], post, m);
    assert FreeAt(c, 0) == [] + [m] + post;
  }
}
