/** Device-number intervals, copied into one bucket for each major number they touch. */
module KobjMap {
  import opened Machine
  import opened Options

  const MINORS: int := 0x10_0000
  const PROBES: nat := 255

  /** A mapping of `range` device numbers from `devNum` on; its probes live in the array `block`. */
  datatype Mapping = Mapping(devNum: nat, range: nat, data: nat, block: nat)

  /** Probe number `idx` of a mapping's array. */
  datatype Probe = Probe(of: Mapping, idx: int)

  datatype Status = Normal | Fault | NoMemory

  function Major(dev: nat): nat { dev / MINORS }

  function Min(a: nat, b: nat): nat { if a < b then a else b }

  /** The first bucket of an interval, and how many buckets follow it. */
  function First(devNum: nat): nat { Min(PROBES, Major(devNum)) }

  function Count(devNum: nat, range: nat): nat {
    var majors := Major(devNum + range) + 1 - First(devNum);
    if First(devNum) + majors > PROBES then PROBES - First(devNum) else majors
  }

  predicate Spans(devNum: nat, range: nat, b: nat) { First(devNum) <= b < First(devNum) + Count(devNum, range) }

  predicate InBucket(m: Mapping, b: nat) { Spans(m.devNum, m.range, b) }

  predicate NoWrap(m: Mapping) { m.devNum + m.range < WORD }

  // ---------------------------------------------------------------------------
  // The naive registry: every mapping made and not yet undone, newest first.

  predicate Covers(m: Mapping, dev: nat) { m.devNum <= dev < m.devNum + m.range }

  ghost predicate Best(reg: seq<Mapping>, i: int, dev: nat) {
    && 0 <= i < |reg| && Covers(reg[i], dev)
    && (forall j | 0 <= j < |reg| && Covers(reg[j], dev) :: reg[i].range <= reg[j].range)
    && (forall j | 0 <= j < i && Covers(reg[j], dev) :: reg[i].range < reg[j].range)
  }

  function Naive(reg: seq<Mapping>, dev: nat): Option<Mapping> {
    if reg == [] then None
    else
      var rest := Naive(reg[1..], dev);
      if Covers(reg[0], dev) && (rest.None? || reg[0].range <= rest.value.range) then Some(reg[0]) else rest
  }

  /** The naive search finds the covering mapping with the smallest range, the newest of several. */
  lemma {:induction false} NaiveIsBest(reg: seq<Mapping>, dev: nat) returns (i: int)
    ensures Naive(reg, dev).None? ==> forall j | 0 <= j < |reg| :: !Covers(reg[j], dev)
    ensures Naive(reg, dev).Some? ==> Best(reg, i, dev) && reg[i] == Naive(reg, dev).value
  {
    i := 0;
    if reg != [] {
      var k := NaiveIsBest(reg[1..], dev);
      assert forall j | 1 <= j < |reg| :: reg[j] == reg[1..][j - 1];
      if Naive(reg, dev) != Some(reg[0]) || (Naive(reg[1..], dev).Some? && !Covers(reg[0], dev)) { i := k + 1; }
    }
  }

  /** The newest mapping of exactly this interval is taken out. */
  function Undo(reg: seq<Mapping>, devNum: nat, range: nat): seq<Mapping> {
    if reg == [] then []
    else if reg[0].devNum == devNum && reg[0].range == range then reg[1..]
    else [reg[0]] + Undo(reg[1..], devNum, range)
  }

  function Newest(reg: seq<Mapping>, devNum: nat, range: nat): Option<Mapping> {
    if reg == [] then None
    else if reg[0].devNum == devNum && reg[0].range == range then Some(reg[0])
    else Newest(reg[1..], devNum, range)
  }

  // ---------------------------------------------------------------------------
  // Buckets

  function Insert(list: seq<Probe>, p: Probe): seq<Probe> {
    if list == [] || p.of.range <= list[0].of.range then [p] + list else [list[0]] + Insert(list[1..], p)
  }

  predicate Matches(p: Probe, devNum: nat, range: nat) { p.of.devNum == devNum && p.of.range == range }

  function Remove(list: seq<Probe>, devNum: nat, range: nat): seq<Probe> {
    if list == [] then [] else if Matches(list[0], devNum, range) then list[1..] else [list[0]] + Remove(list[1..], devNum, range)
  }

  function FirstMatch(list: seq<Probe>, devNum: nat, range: nat): Option<Probe> {
    if list == [] then None else if Matches(list[0], devNum, range) then Some(list[0]) else FirstMatch(list[1..], devNum, range)
  }

  /** The test of the lookup loop, in 32-bit arithmetic. */
  predicate Hits(m: Mapping, dev: nat) { m.devNum <= dev && dev <= (m.devNum + m.range - 1) % WORD }

  function FirstHit(list: seq<Probe>, dev: nat): Option<Mapping> {
    if list == [] then None else if Hits(list[0].of, dev) then Some(list[0].of) else FirstHit(list[1..], dev)
  }

  lemma {:induction false} InsertAt(list: seq<Probe>, p: Probe, k: nat)
    requires k <= |list| && (forall j | 0 <= j < k :: list[j].of.range < p.of.range)
    requires k < |list| ==> p.of.range <= list[k].of.range
    ensures Insert(list, p) == list[..k] + [p] + list[k..]
  {
    if 0 < k {
      InsertAt(list[1..], p, k - 1);
      assert list[..k] == [list[0]] + list[1..][..k - 1] && list[k..] == list[1..][k - 1..];
    }
  }

  lemma {:induction false} RemoveAt(list: seq<Probe>, devNum: nat, range: nat, k: nat)
    requires k <= |list| && (forall j | 0 <= j < k :: !Matches(list[j], devNum, range))
    requires k < |list| ==> Matches(list[k], devNum, range)
    ensures Remove(list, devNum, range) == if k == |list| then list else list[..k] + list[k + 1..]
    ensures FirstMatch(list, devNum, range) == if k == |list| then None else Some(list[k])
  {
    if 0 < k {
      RemoveAt(list[1..], devNum, range, k - 1);
      assert list[..k] == [list[0]] + list[1..][..k - 1] && list == [list[0]] + list[1..];
      if k < |list| { assert list[k + 1..] == list[1..][k..]; }
    }
  }

  /** What bucket `b` holds after the mappings of `reg` were made. */
  function Bucket(reg: seq<Mapping>, b: nat): seq<Probe> {
    if reg == [] then []
    else
      var rest := Bucket(reg[1..], b);
      if InBucket(reg[0], b) then Insert(rest, Probe(reg[0], b - First(reg[0].devNum))) else rest
  }

  ghost predicate Sorted(list: seq<Probe>) {
    forall i, j | 0 <= i < j < |list| :: list[i].of.range <= list[j].of.range
  }

  lemma {:induction false} InsertSorted(list: seq<Probe>, p: Probe)
    requires Sorted(list)
    ensures Sorted(Insert(list, p)) && forall q :: q in Insert(list, p) <==> q == p || q in list
  {
    if !(list == [] || p.of.range <= list[0].of.range) {
      var rest, r := list[1..], Insert(list[1..], p);
      InsertSorted(rest, p);
      assert list == [list[0]] + rest;
      forall i | 0 <= i < |r| ensures list[0].of.range <= r[i].of.range {
        assert r[i] == p || r[i] in rest;
      }
    }
  }

  lemma {:induction false} BucketSorted(reg: seq<Mapping>, b: nat)
    ensures Sorted(Bucket(reg, b))
    ensures forall p | p in Bucket(reg, b) :: p.of in reg && InBucket(p.of, b) && p.idx == b - First(p.of.devNum)
  {
    if reg != [] {
      BucketSorted(reg[1..], b);
      if InBucket(reg[0], b) {
        var rest, n := Bucket(reg[1..], b), Probe(reg[0], b - First(reg[0].devNum));
        InsertSorted(rest, n);
      }
    }
  }

  lemma {:induction false} InsertHit(list: seq<Probe>, p: Probe, dev: nat)
    requires Sorted(list)
    ensures FirstHit(Insert(list, p), dev)
         == if Hits(p.of, dev) && (FirstHit(list, dev).None? || p.of.range <= FirstHit(list, dev).value.range)
            then Some(p.of) else FirstHit(list, dev)
  {
    if list == [] || p.of.range <= list[0].of.range {
      HitRange(list, dev);
    } else {
      InsertHit(list[1..], p, dev);
      HitRange(list, dev);
    }
  }

  lemma {:induction false} HitRange(list: seq<Probe>, dev: nat)
    requires Sorted(list)
    ensures FirstHit(list, dev).Some? ==> list != [] && list[0].of.range <= FirstHit(list, dev).value.range
  {
    if list != [] { HitRange(list[1..], dev); }
  }

  // ---------------------------------------------------------------------------
  // Lookup agrees with the naive search

  /** Where the buckets can answer for a mapping: it covers something below major 255 only, or starts
      in major 0 and so is in every bucket it needs. */
  predicate Fits(m: Mapping) {
    if m.range == 0 then 0 < m.devNum else m.devNum + m.range <= PROBES * MINORS || Major(m.devNum) == 0
  }

  lemma FitIsHit(m: Mapping, dev: nat)
    requires NoWrap(m) && Fits(m) && dev < WORD
    ensures Covers(m, dev) <==> Hits(m, dev)
    ensures Covers(m, dev) ==> InBucket(m, Major(dev) % PROBES)
  {
  }

  function Lookup(reg: seq<Mapping>, dev: nat): Option<Mapping> { FirstHit(Bucket(reg, Major(dev) % PROBES), dev) }

  /** When every mapping fits, the bucket of a device answers as the search of the whole registry. */
  lemma {:induction false} LookupIsNaive(reg: seq<Mapping>, dev: nat)
    requires dev < WORD && forall m | m in reg :: NoWrap(m) && Fits(m)
    ensures Lookup(reg, dev) == Naive(reg, dev)
  {
    if reg != [] {
      var b := Major(dev) % PROBES;
      LookupIsNaive(reg[1..], dev);
      FitIsHit(reg[0], dev);
      BucketSorted(reg[1..], b);
      if InBucket(reg[0], b) { InsertHit(Bucket(reg[1..], b), Probe(reg[0], b - First(reg[0].devNum)), dev); }
    }
  }

  /** In particular, for mappings of at least one device that end at or below device 0xFF00000. */
  lemma LookupBelowTop(reg: seq<Mapping>, dev: nat)
    requires dev < 0x1_0000_0000 && forall m | m in reg :: 0 < m.range && m.devNum + m.range <= 0xFF0_0000
    ensures Lookup(reg, dev) == Naive(reg, dev)
  {
    LookupIsNaive(reg, dev);
  }

  /** Of a mapping on its own the buckets answer as the naive search exactly when it fits. */
  lemma LookupNeedsFit(m: Mapping)
    requires NoWrap(m)
    ensures (forall dev: nat | dev < WORD :: Lookup([m], dev) == Naive([m], dev)) <==> Fits(m)
  {
    if Fits(m) {
      forall dev: nat | dev < WORD ensures Lookup([m], dev) == Naive([m], dev) { LookupIsNaive([m], dev); }
    } else {
      var dev := if m.range == 0 then 0 else if Major(m.devNum) < PROBES then PROBES * MINORS else m.devNum;
      var b := Major(dev) % PROBES;
      assert Bucket([m], b) == if InBucket(m, b) then [Probe(m, b - First(m.devNum))] else [];
      assert Lookup([m], dev) != Naive([m], dev);
    }
  }

  // ---------------------------------------------------------------------------
  // Unmap

  lemma {:induction false} RemoveInserted(list: seq<Probe>, p: Probe, devNum: nat, range: nat)
    requires Sorted(list)
    ensures Matches(p, devNum, range) ==>
              Remove(Insert(list, p), devNum, range) == list && FirstMatch(Insert(list, p), devNum, range) == Some(p)
    ensures !Matches(p, devNum, range) ==>
              && Remove(Insert(list, p), devNum, range) == Insert(Remove(list, devNum, range), p)
              && FirstMatch(Insert(list, p), devNum, range) == FirstMatch(list, devNum, range)
  {
    if list == [] {
    } else if p.of.range <= list[0].of.range {
      assert Insert(list, p)[1..] == list;
    } else {
      RemoveInserted(list[1..], p, devNum, range);
      assert Insert(list, p)[1..] == Insert(list[1..], p);
      assert list == [list[0]] + list[1..];
    }
  }

  /** Taking the first match out of a bucket takes the newest match out of the registry. */
  lemma {:induction false} RemoveIsUndo(reg: seq<Mapping>, devNum: nat, range: nat, b: nat)
    requires Spans(devNum, range, b)
    ensures Remove(Bucket(reg, b), devNum, range) == Bucket(Undo(reg, devNum, range), b)
    ensures FirstMatch(Bucket(reg, b), devNum, range) == ProbeOf(Newest(reg, devNum, range), b - First(devNum))
  {
    if reg != [] {
      var m, rest := reg[0], reg[1..];
      BucketSorted(rest, b);
      if InBucket(m, b) { RemoveInserted(Bucket(rest, b), Probe(m, b - First(m.devNum)), devNum, range); }
      if m.devNum != devNum || m.range != range {
        RemoveIsUndo(rest, devNum, range, b);
        assert Undo(reg, devNum, range)[1..] == Undo(rest, devNum, range);
      }
    }
  }

  lemma {:induction false} UndoElsewhere(reg: seq<Mapping>, devNum: nat, range: nat, b: nat)
    requires !Spans(devNum, range, b)
    ensures Bucket(Undo(reg, devNum, range), b) == Bucket(reg, b)
  {
    if reg != [] { UndoElsewhere(reg[1..], devNum, range, b); }
  }

  /** Undoing a mapping gives the registry that would be there had it never been made, whatever other
      intervals were mapped since. */
  lemma {:induction false} UndoAfterOthers(later: seq<Mapping>, m: Mapping, reg: seq<Mapping>)
    requires forall k | k in later :: k.devNum != m.devNum || k.range != m.range
    ensures Undo(later + [m] + reg, m.devNum, m.range) == later + reg
  {
    if later == [] {
      assert later + [m] + reg == [m] + reg && ([m] + reg)[1..] == reg == later + reg;
    } else {
      UndoAfterOthers(later[1..], m, reg);
      assert later[0] in later && (later + [m] + reg)[1..] == later[1..] + [m] + reg;
      assert later + reg == [later[0]] + (later[1..] + reg);
    }
  }

  // ---------------------------------------------------------------------------
  // The table

  ghost function Blocks(reg: seq<Mapping>): set<nat> { set m | m in reg :: m.block }

  ghost predicate Distinct(reg: seq<Mapping>) { forall i, j | 0 <= i < j < |reg| :: reg[i].block != reg[j].block }

  lemma BlocksOfNew(m: Mapping, reg: seq<Mapping>)
    requires Distinct(reg) && m.block !in Blocks(reg)
    ensures Blocks([m] + reg) == Blocks(reg) + {m.block} && Distinct([m] + reg)
  {
    var all := [m] + reg;
    forall k | k in Blocks(reg) + {m.block} ensures k in Blocks(all) {
      if k in Blocks(reg) {
        var n :| n in reg && n.block == k;
        assert n in all;
      } else {
        assert all[0] == m;
      }
    }
    forall i, j | 0 <= i < j < |all| ensures all[i].block != all[j].block {
      assert all[j] in reg;
      assert all[j].block in Blocks(reg);
    }
  }

  lemma {:induction false} BlocksOfUndo(reg: seq<Mapping>, devNum: nat, range: nat)
    requires Distinct(reg)
    ensures Distinct(Undo(reg, devNum, range))
    ensures Blocks(Undo(reg, devNum, range))
         == match Newest(reg, devNum, range) case None => Blocks(reg) case Some(m) => Blocks(reg) - {m.block}
    ensures Newest(reg, devNum, range).Some? ==> Newest(reg, devNum, range).value.block in Blocks(reg)
  {
    if reg != [] {
      var rest := reg[1..];
      assert reg == [reg[0]] + rest;
      BlocksOfUndo(rest, devNum, range);
      assert reg[0].block !in Blocks(rest);
      BlocksOfNew(reg[0], rest);
      if reg[0].devNum != devNum || reg[0].range != range { BlocksOfNew(reg[0], Undo(rest, devNum, range)); }
    }
  }

  function ProbeOf(newest: Option<Mapping>, idx: int): Option<Probe> {
    if newest.None? then None else Some(Probe(newest.value, idx))
  }

  class Domain {
    var probes: seq<seq<Probe>>
    /** The probe arrays allocated and not freed. */
    var live: set<nat>
    ghost var reg: seq<Mapping>

    ghost predicate Valid()
      reads this
    {
      && |probes| == PROBES && (forall b | 0 <= b < PROBES :: probes[b] == Bucket(reg, b))
      && live == Blocks(reg) && Distinct(reg)
    }

    constructor ()
      ensures Valid() && reg == []
    {
      probes, live, reg := seq(PROBES, _ => []), {}, [];
    }

    /** Link a probe in front of the first one whose range is not smaller. */
    method Link(index: nat, p: Probe)
      requires index < |probes|
      modifies this`probes
      ensures probes == old(probes)[index := Insert(old(probes)[index], p)]
    {
      var list := probes[index];
      var k := 0;
      while k < |list| && list[k].of.range < p.of.range
        invariant k <= |list| && forall j | 0 <= j < k :: list[j].of.range < p.of.range
      {
        k := k + 1;
      }
      InsertAt(list, p, k);
      probes := probes[index := list[..k] + [p] + list[k..]];
    }

    /** Copy a mapping into `majorCnt` buckets from `major` on. */
    method LinkAll(m: Mapping, major: nat, majorCnt: nat)
      requires |probes| == PROBES && major + majorCnt <= PROBES
      modifies this`probes
      ensures |probes| == PROBES && forall b | 0 <= b < PROBES ::
        probes[b] == if major <= b < major + majorCnt then Insert(old(probes)[b], Probe(m, b - major)) else old(probes)[b]
    {
      var i := 0;
      while i < majorCnt
        invariant 0 <= i <= majorCnt && |probes| == PROBES
        invariant forall b | 0 <= b < PROBES ::
          probes[b] == if major <= b < major + i then Insert(old(probes)[b], Probe(m, b - major)) else old(probes)[b]
      {
        var index := (major + i) % PROBES;
        assert index == major + i;
        Link(index, Probe(m, i));
        i := i + 1;
      }
    }

    /** Make a mapping, in an array the allocator hands out at `grant`.  Data or memory that is null or
        reads as an error code is refused. */
    method Map(devNum: nat, range: nat, data: nat, grant: nat) returns (status: Status)
      requires Valid() && devNum + range < WORD && (IsValid(grant) ==> grant !in live)
      modifies this
      ensures Valid()
      ensures status == if !IsValid(data) then Fault else if !IsValid(grant) then NoMemory else Normal
      ensures reg == if status == Normal then [Mapping(devNum, range, data, grant)] + old(reg) else old(reg)
    {
      if !IsValid(data) { return Fault; }
      var major := Min(PROBES, Major(devNum));
      var majorCnt := Major(devNum + range) - major + 1;
      if major + majorCnt > PROBES { majorCnt := PROBES - major; }
      if !IsValid(grant) { return NoMemory; }
      var m := Mapping(devNum, range, data, grant);
      live := live + {grant};
      LinkAll(m, major, majorCnt);
      BlocksOfNew(m, reg);
      reg := [m] + reg;
      return Normal;
    }

    /** Unlink the first probe of exactly this interval. */
    method Unlink(index: nat, devNum: nat, range: nat) returns (p: Option<Probe>)
      requires index < |probes|
      modifies this`probes
      ensures probes == old(probes)[index := Remove(old(probes)[index], devNum, range)]
      ensures p == FirstMatch(old(probes)[index], devNum, range)
    {
      var list := probes[index];
      var k := 0;
      while k < |list|
        invariant k <= |list| && forall j | 0 <= j < k :: !Matches(list[j], devNum, range)
      {
        if Matches(list[k], devNum, range) {
          RemoveAt(list, devNum, range, k);
          probes := probes[index := list[..k] + list[k + 1..]];
          return Some(list[k]);
        }
        k := k + 1;
      }
      RemoveAt(list, devNum, range, k);
      p := None;
    }

    /** Unlink the interval in `majorCnt` buckets from `major` on, and keep the first probe found. */
    method UnlinkAll(devNum: nat, range: nat, major: nat, majorCnt: nat, ghost newest: Option<Mapping>)
      returns (found: Option<Probe>)
      requires |probes| == PROBES && major + majorCnt <= PROBES
      requires forall b | major <= b < major + majorCnt :: FirstMatch(probes[b], devNum, range) == ProbeOf(newest, b - major)
      modifies this`probes
      ensures |probes| == PROBES && forall b | 0 <= b < PROBES ::
        probes[b] == if major <= b < major + majorCnt then Remove(old(probes)[b], devNum, range) else old(probes)[b]
      ensures found == if majorCnt == 0 then None else ProbeOf(newest, 0)
    {
      found := None;
      var i := 0;
      while i < majorCnt
        invariant 0 <= i <= majorCnt && |probes| == PROBES
        invariant forall b | 0 <= b < PROBES ::
          probes[b] == if major <= b < major + i then Remove(old(probes)[b], devNum, range) else old(probes)[b]
        invariant found == if i == 0 then None else ProbeOf(newest, 0)
      {
        assert FirstMatch(old(probes)[major + i], devNum, range) == ProbeOf(newest, i);
        var index := (major + i) % PROBES;
        assert index == major + i;
        var p := Unlink(index, devNum, range);
        found := if found.Some? then found else p;
        i := i + 1;
      }
    }

    /** Undo the newest mapping of exactly this interval; `freed` is the pointer given to the
        allocator.  A mapping that has no bucket is not found and its array stays. */
    method Unmap(devNum: nat, range: nat) returns (freed: Option<Probe>)
      requires Valid() && devNum + range < WORD
      modifies this
      ensures Valid()
      ensures reg == if Count(devNum, range) == 0 then old(reg) else Undo(old(reg), devNum, range)
      ensures freed == if Count(devNum, range) == 0 then None else ProbeOf(Newest(old(reg), devNum, range), 0)
      ensures freed.Some? ==> live == old(live) - {freed.value.of.block} && freed.value.of.block in old(live)
      ensures freed.None? ==> live == old(live)
    {
      var major := Min(PROBES, Major(devNum));
      var majorCnt := Major(devNum + range) - major + 1;
      if major + majorCnt > PROBES { majorCnt := PROBES - major; }
      ghost var reg' := Undo(reg, devNum, range);
      BlocksOfUndo(reg, devNum, range);
      ghost var newest := Newest(reg, devNum, range);
      forall b: nat | b < PROBES
        ensures Spans(devNum, range, b) ==> FirstMatch(Bucket(reg, b), devNum, range) == ProbeOf(newest, b - First(devNum))
        ensures Bucket(reg', b) == if Spans(devNum, range, b) then Remove(Bucket(reg, b), devNum, range) else Bucket(reg, b)
      {
        if Spans(devNum, range, b) { RemoveIsUndo(reg, devNum, range, b); } else { UndoElsewhere(reg, devNum, range, b); }
      }
      freed := UnlinkAll(devNum, range, major, majorCnt, newest);
      if freed.Some? { live := live - {freed.value.of.block}; }
      reg := if majorCnt == 0 then reg else reg';
    }

    /** The data of the device, zero if no mapping answers. */
    method Find(dev: nat) returns (data: nat)
      requires Valid() && dev < WORD
      ensures data == match Lookup(reg, dev) case None => 0 case Some(m) => m.data
      ensures (forall m | m in reg :: NoWrap(m) && Fits(m)) ==>
                data == match Naive(reg, dev) case None => 0 case Some(m) => m.data
    {
      if forall m | m in reg :: NoWrap(m) && Fits(m) { LookupIsNaive(reg, dev); }
      var list := probes[Major(dev) % PROBES];
      var k := 0;
      while k < |list|
        invariant k <= |list| && FirstHit(list, dev) == FirstHit(list[k..], dev)
      {
        if Hits(list[k].of, dev) { return list[k].of.data; }
        assert list[k..][1..] == list[k + 1..];
        k := k + 1;
      }
      data := 0;
    }
  }

  /** Every probe a valid table can reach is in an array that is still allocated. */
  lemma ReachableIsLive(reg: seq<Mapping>, b: nat, p: Probe)
    requires p in Bucket(reg, b)
    ensures p.of.block in Blocks(reg)
  {
    BucketSorted(reg, b);
  }

  /** A mapping of the first device number of major 255 is in no bucket: undoing it does nothing, and its
      array stays allocated. */
  method TopMajorStays() returns (domain: Domain, status: Status, freed: Option<Probe>)
    ensures status == Normal && freed == None
    ensures domain.reg == [Mapping(PROBES * MINORS, 1, 8, 16)] && domain.live == {16}
  {
    domain := new Domain();
    status := domain.Map(PROBES * MINORS, 1, 8, 16);
    assert Count(PROBES * MINORS, 1) == 0;
    freed := domain.Unmap(PROBES * MINORS, 1);
    assert domain.reg[0] in domain.reg;
  }
}
