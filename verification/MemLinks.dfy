/** The list link in the last eight bytes of every header: which links hold a list position or a
    self-ring, and what overwrites them.  Freeing a block follows its link and that of its left
    neighbour. */
module MemLinks {
  import opened MemChain

  /** Bytes of a header in front of its link. */
  const LINK: int := 24

  /** `ready` are the addresses at which a link has been initialised and not been overwritten since,
      whether or not there is a header at the moment.  Writing `n` bytes at `at` spoils some. */
  function Overwritten(ready: set<int>, at: int, n: int): set<int> {
    set a | a in ready && !(at < a + HEADER && a + LINK < at + n)
  }

  /** A write of `n` bytes at `at` touches the byte `x`. */
  predicate Touches(at: int, n: int, x: int) { at <= x < at + n }

  /** The link is the last eight bytes of a header: it survives a write that touches none of them. */
  lemma LinkBytes(ready: set<int>, a: int, at: int, n: int)
    requires 0 < n
    ensures a in Overwritten(ready, at, n) <==> a in ready && forall x | a + 24 <= x < a + 32 :: !Touches(at, n, x)
  {
    var x := if at < a + 24 then a + 24 else at;
    if at < a + HEADER && a + LINK < at + n { assert Touches(at, n, x); }
  }

  /** The link at `a` is not part of the header fields at `m`. */
  predicate Clear(a: int, m: int) { a % 8 == 0 && (a + HEADER <= m || m <= a) }

  ghost predicate ClearAt(ready: set<int>, m: int) { forall a | a in ready :: Clear(a, m) }

  /** Every block with unused space is listed, so its link is initialised; and no link that counts as
      initialised lies across the fields of a header. */
  ghost predicate LinksOk(ready: set<int>, c: Chain) {
    && (forall i | 0 <= i < |c| && 0 < c[i].remain :: c[i].start in ready)
    && (forall i | 0 <= i < |c| :: ClearAt(ready, c[i].start))
  }

  ghost predicate AllReady(ready: set<int>, c: Chain) { forall i | 0 <= i < |c| :: c[i].start in ready }

  /** Freeing `ptr` follows a link that is not initialised: the block's own or its left neighbour's. */
  ghost predicate WildAt(ready: set<int>, c: Chain, ptr: int) {
    exists i: nat :: UnreadyAt(ready, c, i, ptr)
  }

  ghost predicate UnreadyAt(ready: set<int>, c: Chain, i: nat, ptr: int) {
    && i < |c| && c[i].start + HEADER == ptr
    && (c[i].start !in ready || (0 < i && c[i - 1].start !in ready))
  }

  /** The initialised links after `d` bytes were taken from block `b`: the fields of a new header are
      written, and it is attached unless nothing of it is unused. */
  function CutReady(ready: set<int>, b: Block, d: nat): set<int> {
    var n := b.start + b.Used();
    if b.Idle() then ready else Overwritten(ready, n, LINK) + (if d < b.remain then {n} else {})
  }

  // ---------------------------------------------------------------------------
  // What the calls keep

  /** Every block after a cut starts where one started before, or is the new one. */
  lemma CutBlock(c: Chain, i: nat, d: nat, k: nat) returns (j: nat)
    requires i < |c| && k < |AllocAt(c, i, d)|
    ensures j < |c|
    ensures if c[i].Idle() then j == k else k == i + 1 || j == (if k <= i then k else k - 1)
    ensures var b := AllocAt(c, i, d)[k];
            if !c[i].Idle() && k == i + 1 then b == Block(c[i].start + c[i].Used(), c[i].remain, c[i].remain - d)
            else b.start == c[j].start && (j != i ==> b == c[j]) && (j == i && !c[i].Idle() ==> b.remain == 0)
  {
    j := if c[i].Idle() || k <= i then k else k - 1;
  }

  lemma KeptLink(c: Chain, base: nat, len: nat, ready: set<int>, i: nat, j: nat, d: nat)
    requires Good(c, base, len) && i < |c| && j < |c|
    ensures c[j].start in ready ==> c[j].start in CutReady(ready, c[i], d)
  {
    assert OkAt(c, i) && OkAt(c, j);
    if i < j { BlocksApart(c, base, len, i, j); }
    if j < i { BlocksApart(c, base, len, j, i); }
  }

  lemma ClearOfNew(c: Chain, base: nat, len: nat, i: nat, j: nat)
    requires Good(c, base, len) && i < |c| && j < |c| && HEADER <= c[i].remain
    ensures Clear(c[i].start + c[i].Used(), c[j].start)
  {
    assert OkAt(c, i) && OkAt(c, j);
    if i < j { BlocksApart(c, base, len, i, j); }
    if j < i { BlocksApart(c, base, len, j, i); }
  }

  lemma LinksAfterCut(ready: set<int>, c: Chain, base: nat, len: nat, i: nat, d: nat)
    requires Good(c, base, len) && LinksOk(ready, c)
    requires i < |c| && HEADER <= d <= c[i].remain
    ensures LinksOk(CutReady(ready, c[i], d), AllocAt(c, i, d))
  {
    var c', ready' := AllocAt(c, i, d), CutReady(ready, c[i], d);
    assert ClearAt(ready, c[i].start);
    assert c[i].start in ready;
    forall k | 0 <= k < |c'| && 0 < c'[k].remain ensures c'[k].start in ready' {
      var j := CutBlock(c, i, d, k);
      KeptLink(c, base, len, ready, i, j, d);
    }
    forall k | 0 <= k < |c'| ensures ClearAt(ready', c'[k].start) {
      var j := CutBlock(c, i, d, k);
      assert ClearAt(ready, c[j].start);
      ClearOfNew(c, base, len, i, j);
      ClearOfNew(c, base, len, i, i);
    }
  }

  /** A cut leaves every link initialised exactly when it is made in place, leaves something unused,
      or puts its header where an initialised link is left over. */
  lemma ReadyAfterCut(ready: set<int>, c: Chain, base: nat, len: nat, i: nat, d: nat)
    requires Good(c, base, len) && AllReady(ready, c) && i < |c| && d <= c[i].remain
    ensures AllReady(CutReady(ready, c[i], d), AllocAt(c, i, d)) <==>
            c[i].Idle() || d < c[i].remain || c[i].start + c[i].Used() in ready
  {
    var c', ready' := AllocAt(c, i, d), CutReady(ready, c[i], d);
    forall k | 0 <= k < |c'| && (c[i].Idle() || k != i + 1) ensures c'[k].start in ready' {
      var j := CutBlock(c, i, d, k);
      KeptLink(c, base, len, ready, i, j, d);
    }
    if !c[i].Idle() {
      assert c'[i + 1].start == c[i].start + c[i].Used();
    }
  }

  lemma LinksAfterMerge(ready: set<int>, c: Chain, i: nat)
    requires LinksOk(ready, c) && i < |c|
    requires c[i].start in ready && (0 < i ==> c[i - 1].start in ready)
    ensures LinksOk(ready, FreeAt(c, i))
  {
    var c' := FreeAt(c, i);
    forall k | 0 <= k < |c'|
      ensures ClearAt(ready, c'[k].start) && (0 < c'[k].remain ==> c'[k].start in ready)
    {
      var j := if i == 0 || k < i then k else k + 1;
      assert c'[k].start == c[j].start;
      assert ClearAt(ready, c[j].start);
    }
  }

  /** A user that writes inside a region it holds spoils no link of a block. */
  lemma LinksAfterStore(ready: set<int>, c: Chain, base: nat, len: nat, r: (int, int), at: int, n: int)
    requires Good(c, base, len) && LinksOk(ready, c)
    requires r in Live(c) && r.0 <= at && at + n <= r.0 + r.1
    ensures LinksOk(Overwritten(ready, at, n), c)
    ensures forall j | 0 <= j < |c| && c[j].start in ready :: c[j].start in Overwritten(ready, at, n)
  {
    forall j | 0 <= j < |c| && c[j].start in ready ensures c[j].start in Overwritten(ready, at, n) {
      LiveRegionOffHeaders(c, base, len, r, j);
    }
    forall j | 0 <= j < |c| ensures ClearAt(Overwritten(ready, at, n), c[j].start) {
      assert ClearAt(ready, c[j].start);
    }
  }

  lemma ReadyAfterMerge(ready: set<int>, c: Chain, i: nat)
    requires i < |c| && AllReady(ready, c)
    ensures AllReady(ready, FreeAt(c, i))
  {
    var c' := FreeAt(c, i);
    forall k | 0 <= k < |c'| ensures c'[k].start in ready {
      assert c'[k].start == c[if i == 0 || k < i then k else k + 1].start;
    }
  }

  /** A write that spoils no link of a block does not change which frees are wild. */
  lemma StoreKeepsWild(ready: set<int>, c: Chain, at: int, n: int)
    requires forall j | 0 <= j < |c| && c[j].start in ready :: c[j].start in Overwritten(ready, at, n)
    ensures forall ptr :: WildAt(Overwritten(ready, at, n), c, ptr) <==> WildAt(ready, c, ptr)
  {
    forall ptr ensures WildAt(Overwritten(ready, at, n), c, ptr) <==> WildAt(ready, c, ptr) {
      if i: nat :| UnreadyAt(ready, c, i, ptr) { assert UnreadyAt(Overwritten(ready, at, n), c, i, ptr); }
      if i: nat :| UnreadyAt(Overwritten(ready, at, n), c, i, ptr) { assert UnreadyAt(ready, c, i, ptr); }
    }
  }

  /** A pointer that names no live region leads to no link. */
  lemma NotWild(ready: set<int>, c: Chain, base: nat, len: nat, ptr: int)
    requires Good(c, base, len) && LinksOk(ready, c)
    requires forall i: nat | i < |c| && c[i].start + HEADER == ptr :: c[i].Used() < HEADER
    ensures !WildAt(ready, c, ptr)
  {
    forall i: nat ensures !UnreadyAt(ready, c, i, ptr) {
      if i < |c| && c[i].start + HEADER == ptr { assert OkAt(c, i); }
    }
  }

  // ---------------------------------------------------------------------------
  // Whole runs

  /** A pool with its links, and what can happen to it: an allocation from block `i`, a free that is not
      wild, a user that writes inside a region it holds. */
  datatype Links = Links(c: Chain, ready: set<int>)

  datatype Event = Took(i: nat, d: nat) | Gave(ptr: int) | Stored(at: int, n: int, r: (int, int))

  ghost predicate Happens(s: Links, e: Event, t: Links) {
    match e
    case Took(i, d) =>
      i < |s.c| && HEADER <= d <= s.c[i].remain && d % 8 == 0
      && t == Links(AllocAt(s.c, i, d), CutReady(s.ready, s.c[i], d))
    case Gave(ptr) => !WildAt(s.ready, s.c, ptr) && t == Links(FreeChain(s.c, ptr), s.ready)
    case Stored(at, n, r) =>
      r in Live(s.c) && r.0 <= at && at + n <= r.0 + r.1 && t == Links(s.c, Overwritten(s.ready, at, n))
  }

  ghost predicate IsLinkRun(states: seq<Links>, es: seq<Event>, base: nat, len: nat) {
    && |states| == |es| + 1 && HEADER <= len && base % 8 == 0
    && states[0] == Links(Fresh(base, len), {base})
    && forall k | 0 <= k < |es| :: HappensAt(states, es, k)
  }

  ghost predicate HappensAt(states: seq<Links>, es: seq<Event>, k: nat)
    requires k < |es| && k + 1 < |states|
  {
    Happens(states[k], es[k], states[k + 1])
  }

  /** An allocation made in place, one that leaves something unused, or one whose header lands where an
      initialised link is left over. */
  predicate Tame(s: Links, e: Event) {
    e.Took? && e.i < |s.c| ==>
      s.c[e.i].Idle() || e.d < s.c[e.i].remain || s.c[e.i].start + s.c[e.i].Used() in s.ready
  }

  lemma FreeIsAt(s: Links, base: nat, len: nat, ptr: int) returns (i: nat)
    requires Good(s.c, base, len) && !WildAt(s.ready, s.c, ptr)
    ensures FreeChain(s.c, ptr) == if i < |s.c| then FreeAt(s.c, i) else s.c
    ensures i < |s.c| ==> s.c[i].start in s.ready && (0 < i ==> s.c[i - 1].start in s.ready)
  {
    i := Find(s.c, ptr);
    assert !UnreadyAt(s.ready, s.c, i, ptr);
  }

  lemma EventKeeps(s: Links, e: Event, t: Links, base: nat, len: nat)
    requires Good(s.c, base, len) && LinksOk(s.ready, s.c) && Happens(s, e, t)
    ensures Good(t.c, base, len) && LinksOk(t.ready, t.c)
  {
    match e
    case Took(i, d) =>
      AllocKeepsGood(s.c, base, len, i, d);
      LinksAfterCut(s.ready, s.c, base, len, i, d);
    case Gave(ptr) =>
      var i := FreeIsAt(s, base, len, ptr);
      if i < |s.c| {
        FreeKeepsGood(s.c, base, len, i);
        LinksAfterMerge(s.ready, s.c, i);
      }
    case Stored(at, n, r) => LinksAfterStore(s.ready, s.c, base, len, r, at, n);
  }

  lemma UnreadyAfterCut(ready: set<int>, c: Chain, base: nat, len: nat, i: nat, d: nat, j: nat)
    requires Good(c, base, len) && LinksOk(ready, c) && i < |c| && d <= c[i].remain && 0 < c[i].remain
    requires j < |c| && c[j].start !in ready
    ensures !AllReady(CutReady(ready, c[i], d), AllocAt(c, i, d))
  {
    var c' := AllocAt(c, i, d);
    assert OkAt(c, i) && OkAt(c, j);
    if i < j { BlocksApart(c, base, len, i, j); } else { BlocksApart(c, base, len, j, i); }
    assert c'[if j <= i || c[i].Idle() then j else j + 1].start == c[j].start;
  }

  /** A block whose link is not initialised keeps its place: it has nothing unused, so it is not cut, and
      a free that is not wild does not touch it. */
  lemma UnreadyStays(s: Links, e: Event, t: Links, base: nat, len: nat)
    requires Good(s.c, base, len) && LinksOk(s.ready, s.c) && Happens(s, e, t) && !AllReady(s.ready, s.c)
    ensures !AllReady(t.ready, t.c)
  {
    var j :| 0 <= j < |s.c| && s.c[j].start !in s.ready;
    match e
    case Took(i, d) => UnreadyAfterCut(s.ready, s.c, base, len, i, d, j);
    case Gave(ptr) =>
      var i := FreeIsAt(s, base, len, ptr);
      if i < |s.c| { assert t.c[if i == 0 || j < i then j else j - 1].start == s.c[j].start; }
    case Stored(_, _, _) =>
  }

  lemma EventReady(s: Links, e: Event, t: Links, base: nat, len: nat)
    requires Good(s.c, base, len) && LinksOk(s.ready, s.c) && Happens(s, e, t)
    ensures AllReady(t.ready, t.c) <==> AllReady(s.ready, s.c) && Tame(s, e)
  {
    if !AllReady(s.ready, s.c) {
      UnreadyStays(s, e, t, base, len);
    } else {
      match e
      case Took(i, d) => ReadyAfterCut(s.ready, s.c, base, len, i, d);
      case Gave(ptr) =>
        var i := FreeIsAt(s, base, len, ptr);
        if i < |s.c| { ReadyAfterMerge(s.ready, s.c, i); }
      case Stored(at, n, r) => LinksAfterStore(s.ready, s.c, base, len, r, at, n);
    }
  }

  lemma {:induction false} RunReady(states: seq<Links>, es: seq<Event>, base: nat, len: nat, k: nat)
    requires IsLinkRun(states, es, base, len) && k <= |es|
    ensures Good(states[k].c, base, len) && LinksOk(states[k].ready, states[k].c)
    ensures AllReady(states[k].ready, states[k].c) <==> forall j | 0 <= j < k :: Tame(states[j], es[j])
  {
    if k == 0 {
      assert OkAt(states[0].c, 0);
    } else {
      RunReady(states, es, base, len, k - 1);
      assert HappensAt(states, es, k - 1);
      EventKeeps(states[k - 1], es[k - 1], states[k], base, len);
      EventReady(states[k - 1], es[k - 1], states[k], base, len);
    }
  }

  /** Over every run so far without a wild free: some free would now be wild if and only if some
      allocation was an exact fit whose header lies where no initialised link was left. */
  lemma WildAfterRun(states: seq<Links>, es: seq<Event>, base: nat, len: nat)
    requires IsLinkRun(states, es, base, len)
    ensures var s := states[|es|];
            (exists ptr :: WildAt(s.ready, s.c, ptr)) <==> exists j :: 0 <= j < |es| && !Tame(states[j], es[j])
  {
    var s := states[|es|];
    RunReady(states, es, base, len, |es|);
    if !AllReady(s.ready, s.c) {
      var i :| 0 <= i < |s.c| && s.c[i].start !in s.ready;
      assert UnreadyAt(s.ready, s.c, i, s.c[i].start + HEADER);
      assert WildAt(s.ready, s.c, s.c[i].start + HEADER);
    }
    if ptr :| WildAt(s.ready, s.c, ptr) {
      var i: nat :| UnreadyAt(s.ready, s.c, i, ptr);
    }
  }
}
