/** Whole runs of a pool: every sequence of allocations and frees, whichever block each
    allocation takes.  Both allocators are instances of `Step`. */
module MemRun {
  import opened Machine
  import opened Options
  import opened MemChain

  /** One call and what it returned. */
  datatype Op = Alloc(size: nat, result: Option<int>) | Free(ptr: int)

  ghost predicate Takes(c: Chain, i: nat, d: nat, p: int, c': Chain) {
    && i < |c|
    && d <= c[i].remain <= c[i].lenth
    && p == Pointer(c[i])
    && c' == AllocAt(c, i, d)
  }

  ghost predicate Step(c: Chain, op: Op, c': Chain) {
    match op
    case Alloc(size, Some(p)) => exists i: nat :: Takes(c, i, Demand(size), p, c')
    case Alloc(size, None) => c' == c && forall b | b in c :: b.remain < Demand(size)
    case Free(p) => c' == FreeChain(c, p)
  }

  /** `states` is what the chain goes through while `ops` are called on a new pool. */
  ghost predicate IsRun(states: seq<Chain>, ops: seq<Op>, base: nat, len: nat) {
    && |states| == |ops| + 1
    && states[0] == Fresh(base, len)
    && forall k | 0 <= k < |ops| :: Step(states[k], ops[k], states[k + 1])
  }

  ghost function Record(ledger: set<(int, int)>, op: Op): set<(int, int)> {
    match op
    case Alloc(size, Some(p)) => ledger + {(p, Align8(size))}
    case Alloc(_, None) => ledger
    case Free(p) => set r | r in ledger && r.0 != p
  }

  /** The regions a caller holds, worked out from the calls alone. */
  ghost function Ledger(ops: seq<Op>): set<(int, int)> {
    if ops == [] then {} else Record(Ledger(ops[..|ops| - 1]), ops[|ops| - 1])
  }

  lemma DemandIs(size: nat)
    requires size < WORD
    ensures Demand(size) % 8 == 0
    ensures NoWrap(size) ==> Demand(size) == Align8(size) + HEADER && size <= Align8(size) < size + 8
    ensures !NoWrap(size) ==> Demand(size) <= HEADER
  {
  }

  lemma FreeStep(c: Chain, base: nat, len: nat, p: int)
    requires Good(c, base, len)
    ensures Good(FreeChain(c, p), base, len)
    ensures Live(FreeChain(c, p)) == set r | r in Live(c) && r.0 != p
  {
    var i := Find(c, p);
    if i < |c| {
      FreeKeepsGood(c, base, len, i);
      FreeDropsRegion(c, base, len, i);
    } else {
      forall r | r in Live(c) ensures r.0 != p {
        var j := LiveBlock(c, r);
        assert c[j] in c;
      }
    }
  }

  lemma AllocStep(c: Chain, base: nat, len: nat, i: nat, d: nat)
    requires Good(c, base, len) && i < |c| && HEADER <= d <= c[i].remain && d % 8 == 0
    ensures Good(AllocAt(c, i, d), base, len)
    ensures Live(AllocAt(c, i, d)) == Live(c) + {(Pointer(c[i]), d - HEADER)}
    ensures forall r | r in Live(c) :: r.0 != Pointer(c[i])
  {
    AllocKeepsGood(c, base, len, i, d);
    AllocAddsRegion(c, base, len, i, d);
  }

  /** One call keeps the layout and changes the live regions exactly as the caller expects. */
  lemma StepKeeps(c: Chain, op: Op, c': Chain, base: nat, len: nat)
    requires Good(c, base, len)
    requires Step(c, op, c')
    requires op.Alloc? ==> NoWrap(op.size)
    ensures Good(c', base, len)
    ensures Live(c') == Record(Live(c), op)
    ensures op.Alloc? && op.result.Some? ==> forall r | r in Live(c) :: r.0 != op.result.value
  {
    match op
    case Alloc(size, Some(p)) =>
      var i: nat :| Takes(c, i, Demand(size), p, c');
      DemandIs(size);
      AllocStep(c, base, len, i, Demand(size));
    case Alloc(_, None) =>
    case Free(p) => FreeStep(c, base, len, p);
  }

  /** After every run the chain tiles the pool and the live regions are exactly the ledger of
      the calls: no region is lost, moved, resized or shared. */
  lemma {:induction false} RunKeepsLedger(states: seq<Chain>, ops: seq<Op>, base: nat, len: nat)
    requires HEADER <= len && base % 8 == 0
    requires IsRun(states, ops, base, len)
    requires forall op | op in ops && op.Alloc? :: NoWrap(op.size)
    ensures Good(states[|ops|], base, len)
    ensures Live(states[|ops|]) == Ledger(ops)
  {
    var n := |ops|;
    if n == 0 {
      assert Live(states[0]) == {};
    } else {
      RunKeepsLedger(states[..n], ops[..n - 1], base, len);
      assert ops[n - 1] in ops;
      StepKeeps(states[n - 1], ops[n - 1], states[n], base, len);
    }
  }

  /** What a caller can rely on after every run, said about the ledger only. */
  lemma RunIsSafe(states: seq<Chain>, ops: seq<Op>, base: nat, len: nat, r: (int, int), s: (int, int))
    requires HEADER <= len && base % 8 == 0
    requires IsRun(states, ops, base, len)
    requires forall op | op in ops && op.Alloc? :: NoWrap(op.size)
    requires r in Ledger(ops) && s in Ledger(ops)
    ensures r.0 % 8 == 0 && base + HEADER <= r.0 && r.0 + r.1 <= base + len
    ensures r != s ==> Apart(r.0, r.1, s.0, s.1)
    ensures forall j | 0 <= j < |states[|ops|]| :: Apart(r.0, r.1, states[|ops|][j].start, HEADER)
  {
    RunKeepsLedger(states, ops, base, len);
    var c := states[|ops|];
    LiveRegionInside(c, base, len, r);
    if r != s { LiveRegionsApart(c, base, len, r, s); }
    forall j | 0 <= j < |c| ensures Apart(r.0, r.1, c[j].start, HEADER) {
      LiveRegionOffHeaders(c, base, len, r, j);
    }
  }

  ghost function TotalLenth(c: Chain): int { if c == [] then 0 else c[0].lenth + TotalLenth(c[1..]) }

  /** The block lengths add up to the pool. */
  lemma {:induction false} LengthsSumToPool(c: Chain, base: int, len: int)
    requires Tiles(c, base, len)
    ensures TotalLenth(c) == len
  {
    if |c| > 1 {
      assert Joined(c, 0);
      forall i: nat | i + 1 < |c[1..]| ensures Joined(c[1..], i) { assert Joined(c, i + 1); }
      LengthsSumToPool(c[1..], c[1].start, base + len - c[1].start);
    }
  }

  // ---------------------------------------------------------------------------
  // Giving everything back

  function FreeAll(c: Chain, ps: seq<int>): Chain
    decreases |ps|
  {
    if ps == [] then c else FreeAll(FreeChain(c, ps[0]), ps[1..])
  }

  lemma SecondIsLive(c: Chain, base: nat, len: nat)
    requires Good(c, base, len) && |c| > 1
    ensures (c[1].start + HEADER, c[1].Used() - HEADER) in Live(c)
  {
    assert OkAt(c, 1);
    assert c[1..][0] == c[1];
    assert Live(c) == Region(c[0]) + Live(c[1..]);
  }

  lemma NothingLive(c: Chain, base: nat, len: nat)
    requires Good(c, base, len) && Live(c) == {}
    ensures c == Fresh(base, len)
  {
    if |c| > 1 { SecondIsLive(c, base, len); }
    assert OkAt(c, 0);
  }

  /** Freeing every live region, in any order and among any other pointers, returns the pool
      to one idle block. */
  lemma {:induction false} FreeAllRestores(c: Chain, base: nat, len: nat, ps: seq<int>)
    requires Good(c, base, len)
    requires forall r | r in Live(c) :: r.0 in ps
    ensures FreeAll(c, ps) == Fresh(base, len)
    decreases |ps|
  {
    if ps == [] {
      assert Live(c) == {};
      NothingLive(c, base, len);
    } else {
      FreeStep(c, base, len, ps[0]);
      FreeAllRestores(FreeChain(c, ps[0]), base, len, ps[1..]);
    }
  }

  // ---------------------------------------------------------------------------
  // Requests that wrap

  /** A request that some block can serve gets a region of at least the requested size exactly
      when the 32-bit size computation does not wrap; a caller can check that beforehand. */
  lemma AllocMeetsRequest(c: Chain, base: nat, len: nat, i: nat, size: nat)
    requires Good(c, base, len) && size < WORD
    requires i < |c| && Demand(size) <= c[i].remain
    ensures NoWrap(size) <==> size <= Demand(size) - HEADER
    ensures NoWrap(size) ==> Good(AllocAt(c, i, Demand(size)), base, len)
    ensures Good(AllocAt(c, i, Demand(size)), base, len) <==>
              HEADER <= Demand(size) || (Demand(size) == 0 && c[i].Idle())
  {
    DemandIs(size);
    AllocKeepsGood(c, base, len, i, Demand(size));
  }

  /** A wrapped request breaks the tiling: the second block gets no room for its header. */
  lemma WrappedRequestBreaksPool()
    ensures var size := WORD - 39;
            var c := AllocAt(Fresh(64, 1024), 0, 40);
            Good(c, 64, 1024) && Demand(size) == 0 && !Good(AllocAt(c, 0, Demand(size)), 64, 1024)
  {
    var c := AllocAt(Fresh(64, 1024), 0, 40);
    assert c == [Block(64, 1024, 984)];
    assert AllocAt(c, 0, 0)[1] == Block(104, 984, 984);
    assert !OkAt(AllocAt(c, 0, 0), 1);
  }
}
