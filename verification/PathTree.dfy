/** Trees of nodes named by their path from the root, each with an optional link.  The radix tree
    and the trie both come down to this. */
module PathTree {
  import opened Options

  type Path = seq<nat>
  type Link = nat

  /** The nodes that exist, and what they carry. */
  type Tree = map<Path, Option<Link>>

  const EMPTY: Tree := map[[] := None]

  function Get(t: Tree, p: Path): Option<Link> { if p in t then t[p] else None }

  function Parent(p: Path): Path
    requires p != []
  {
    p[..|p| - 1]
  }

  function Child(p: Path, d: nat): (c: Path)
    ensures c != [] && Parent(c) == p && c[|c| - 1] == d
  {
    p + [d]
  }

  lemma ChildInjective(p: Path, d: nat, q: Path, e: nat)
    ensures Child(p, d) == Child(q, e) <==> p == q && d == e
  {
    assert Parent(Child(p, d)) == p && Parent(Child(q, e)) == q;
  }

  lemma ChildOfParent(c: Path)
    requires c != []
    ensures c == Child(Parent(c), c[|c| - 1])
  {
  }

  /** Every node but the root has its parent. */
  ghost predicate Closed(ps: set<Path>) {
    && [] in ps
    && forall p {:trigger Parent(p)} | p in ps && p != [] :: Parent(p) in ps
  }

  lemma NoOrphan(ps: set<Path>, p: Path, d: nat)
    requires Closed(ps) && p !in ps
    ensures Child(p, d) !in ps
  {
  }

  ghost predicate IsChild(c: Path, p: Path) { |c| == |p| + 1 && c[..|p|] == p }

  ghost predicate HasChild(t: Tree, p: Path) { exists c :: c in t && IsChild(c, p) }

  /** Make the nodes on the way to `p` down to level `k`. */
  function Grow(t: Tree, p: Path, k: nat): Tree
    requires k <= |p|
  {
    if k == 0 then t
    else
      var t1 := Grow(t, p, k - 1);
      if p[..k] in t1 then t1 else t1[p[..k] := None]
  }

  function Add(t: Tree, p: Path, link: Link): Tree { Grow(t, p, |p|)[p := Some(link)] }

  /** Remove node `p` and its ancestors as long as they carry nothing and lead nowhere. */
  ghost function Prune(t: Tree, p: Path): Tree
    decreases |p|
  {
    if p == [] || Get(t, p).Some? || HasChild(t, p) then t else Prune(t - {p}, Parent(p))
  }

  ghost function Del(t: Tree, p: Path): Tree { Prune(t[p := None], p) }

  // ---------------------------------------------------------------------------
  // What the operations do to lookups

  lemma {:induction false} GrowGet(t: Tree, p: Path, k: nat, q: Path)
    requires k <= |p|
    ensures Get(Grow(t, p, k), q) == Get(t, q)
  {
    if 0 < k { GrowGet(t, p, k - 1, q); }
  }

  lemma {:induction false} PruneGet(t: Tree, p: Path, q: Path)
    ensures Get(Prune(t, p), q) == Get(t, q)
    decreases |p|
  {
    if !(p == [] || Get(t, p).Some? || HasChild(t, p)) { PruneGet(t - {p}, Parent(p), q); }
  }

  /** Adding binds one path, deleting unbinds one path, and neither touches any other. */
  lemma AddDelGet(t: Tree, p: Path, link: Link, q: Path)
    ensures Get(Add(t, p, link), q) == if q == p then Some(link) else Get(t, q)
    ensures Get(Del(t, p), q) == if q == p then None else Get(t, q)
  {
    GrowGet(t, p, |p|, q);
    PruneGet(t[p := None], p, q);
  }

  /** How far down the way to `p` the tree reaches. */
  ghost function Depth(ps: set<Path>, p: Path): (k: nat)
    ensures k <= |p|
    decreases |p|
  {
    if p == [] || p in ps then |p| else Depth(ps, Parent(p))
  }

  lemma {:induction false} DepthIs(ps: set<Path>, p: Path, k: nat)
    requires Closed(ps) && k <= |p|
    ensures p[..k] in ps <==> k <= Depth(ps, p)
    decreases |p|
  {
    if p == [] || p in ps {
      PrefixPresent(ps, p, p[..k]);
    } else if k < |p| {
      assert p[..k] == Parent(p)[..k];
      DepthIs(ps, Parent(p), k);
    } else {
      assert p[..k] == p;
    }
  }

  // ---------------------------------------------------------------------------
  // No dead branches

  ghost predicate Alive(t: Tree, p: Path) { exists q :: q in t && t[q].Some? && p <= q }

  /** Every node but the root carries a link or leads to one. */
  ghost predicate Canonical(t: Tree) {
    && Closed(t.Keys)
    && forall p {:trigger Alive(t, p)} | p in t && p != [] :: Alive(t, p)
  }

  lemma {:induction false} GrowHas(t: Tree, p: Path, k: nat, q: Path)
    requires [] in t && k <= |p|
    ensures q in Grow(t, p, k) <==> q in t || (|q| <= k && q <= p)
  {
    if q <= p { assert q == p[..|q|]; }
    if 0 < k { GrowHas(t, p, k - 1, q); }
  }

  lemma GrowClosed(t: Tree, p: Path, k: nat)
    requires Closed(t.Keys) && k <= |p|
    ensures Closed(Grow(t, p, k).Keys) && p[..k] in Grow(t, p, k)
    ensures forall q :: q in Grow(t, p, k) <==> q in t || (|q| <= k && q <= p)
  {
    var g := Grow(t, p, k);
    forall q ensures q in g <==> q in t || (|q| <= k && q <= p) { GrowHas(t, p, k, q); }
    forall q | q in g && q != [] ensures Parent(q) in g {
      if q !in t { assert Parent(q) == p[..|q| - 1]; }
    }
  }

  lemma GrowNext(t: Tree, p: Path, k: nat)
    requires Closed(t.Keys) && k < |p|
    ensures p[..k + 1] in Grow(t, p, k) <==> k + 1 <= Depth(t.Keys, p)
  {
    GrowClosed(t, p, k);
    DepthIs(t.Keys, p, k + 1);
  }

  lemma AddCanonical(t: Tree, p: Path, link: Link)
    requires Canonical(t)
    ensures Canonical(Add(t, p, link))
  {
    var t' := Add(t, p, link);
    GrowClosed(t, p, |p|);
    assert p[..|p|] == p;
    forall q | q in t' && q != [] ensures Alive(t', q) {
      if q in t && !(q <= p) {
        assert Alive(t, q);
        var r :| r in t && t[r].Some? && q <= r;
        GrowGet(t, p, |p|, r);
        assert r in t' && t'[r].Some?;
      } else {
        assert p in t' && t'[p].Some?;
      }
    }
  }

  /** Canonical but for nodes on the way to `p`. */
  ghost predicate CanonicalBut(t: Tree, p: Path) {
    && Closed(t.Keys)
    && forall q {:trigger Alive(t, q)} | q in t && q != [] && !(q <= p) :: Alive(t, q)
  }

  lemma {:induction false} PruneCanonical(t: Tree, p: Path)
    requires CanonicalBut(t, p) && p in t
    ensures Canonical(Prune(t, p))
    decreases |p|
  {
    if p == [] || Get(t, p).Some? || HasChild(t, p) {
      forall q | q in t && q != [] ensures Alive(t, q) {
        if q <= p { AliveAbove(t, p, q); }
      }
    } else {
      var t' := t - {p};
      forall q | q in t' && q != [] ensures Parent(q) in t' {
        assert IsChild(q, Parent(q));
      }
      forall q | q in t' && q != [] && !(q <= Parent(p)) ensures Alive(t', q) {
        PrefixOfParent(q, p);
        assert Alive(t, q);
        var r :| r in t && t[r].Some? && q <= r;
        assert r in t' && t'[r].Some?;
      }
      PruneCanonical(t', Parent(p));
    }
  }

  lemma PrefixOfParent(q: Path, p: Path)
    requires p != []
    ensures q <= p <==> q == p || q <= Parent(p)
  {
    if q <= p && q != p { assert q == p[..|q|] == Parent(p)[..|q|]; }
  }

  lemma AliveAbove(t: Tree, p: Path, q: Path)
    requires CanonicalBut(t, p) && p in t && q <= p && q != []
    requires Get(t, p).Some? || HasChild(t, p)
    ensures Alive(t, q)
  {
    if Get(t, p).Some? {
      assert p in t && t[p].Some?;
    } else {
      var c :| c in t && IsChild(c, p);
      assert Alive(t, c);
      var r :| r in t && t[r].Some? && c <= r;
      assert q <= r;
    }
  }

  lemma DelCanonical(t: Tree, p: Path)
    requires Canonical(t) && p in t
    ensures Canonical(Del(t, p))
  {
    var t' := t[p := None];
    forall q | q in t' && q != [] && !(q <= p) ensures Alive(t', q) {
      assert Alive(t, q);
      var r :| r in t && t[r].Some? && q <= r;
      assert r != p && r in t' && t'[r].Some?;
    }
    PruneCanonical(t', p);
  }

  /** A canonical tree is fixed by its lookups: there is no node more or less than they need. */
  lemma CanonicalUnique(t: Tree, u: Tree)
    requires Canonical(t) && Canonical(u)
    requires forall p :: Get(t, p) == Get(u, p)
    ensures t == u
  {
    forall p | p in t ensures p in u { NodeNeeded(t, u, p); }
    forall p | p in u ensures p in t { NodeNeeded(u, t, p); }
    forall p | p in t ensures t[p] == u[p] { assert Get(t, p) == Get(u, p); }
  }

  lemma NodeNeeded(t: Tree, u: Tree, p: Path)
    requires Canonical(t) && Closed(u.Keys) && p in t
    requires forall q :: Get(t, q) == Get(u, q)
    ensures p in u
  {
    if p != [] {
      assert Alive(t, p);
      var r :| r in t && t[r].Some? && p <= r;
      assert Get(u, r) == Get(t, r);
      PrefixPresent(u.Keys, r, p);
    }
  }

  lemma {:induction false} PrefixPresent(ps: set<Path>, r: Path, p: Path)
    requires Closed(ps) && r in ps && p <= r
    ensures p in ps
    decreases |r|
  {
    if p != r { PrefixPresent(ps, Parent(r), p); }
  }

  /** Deleting what was added gives back the very same tree. */
  lemma DelUndoesAdd(t: Tree, p: Path, link: Link)
    requires Canonical(t) && Get(t, p) == None
    ensures Del(Add(t, p, link), p) == t
  {
    var u := Add(t, p, link);
    AddCanonical(t, p, link);
    DelCanonical(u, p);
    forall q ensures Get(Del(u, p), q) == Get(t, q) {
      AddDelGet(t, p, link, q);
      AddDelGet(u, p, link, q);
    }
    CanonicalUnique(Del(u, p), t);
  }

  // ---------------------------------------------------------------------------
  // Runs

  /** Bind and Unbind are calls that run to the end.  Fail is a bind that ran out of memory after
      `made` levels; Retire is an unbind that leaves its node in place. */
  datatype Op<+K> =
    | Bind(key: K, link: Link)
    | Unbind(key: K)
    | Fail(key: K, made: nat)
    | Retire(key: K)

  /** Bind keeps an existing binding; unbind of an unbound path, or of the root, does nothing. */
  ghost function Step<K>(path: K -> Path, t: Tree, op: Op<K>): Tree {
    var p := path(op.key);
    match op
    case Bind(_, link) => if Get(t, p).Some? then t else Add(t, p, link)
    case Unbind(_) => if Get(t, p).None? || p == [] then t else Del(t, p)
    case Fail(_, made) => if Get(t, p).None? && made <= |p| then Grow(t, p, made) else t
    case Retire(_) => if Get(t, p).None? || p == [] then t else t[p := None]
  }

  ghost function RunTree<K>(path: K -> Path, ops: seq<Op<K>>): Tree {
    if ops == [] then EMPTY else Step(path, RunTree(path, ops[..|ops| - 1]), ops[|ops| - 1])
  }

  /** The finite map a user has in mind. */
  ghost function RunMap<K>(path: K -> Path, ops: seq<Op<K>>): map<K, Link> {
    if ops == [] then map[]
    else
      var m := RunMap(path, ops[..|ops| - 1]);
      match ops[|ops| - 1]
      case Bind(k, link) => if k in m then m else m[k := link]
      case Unbind(k) => if path(k) == [] then m else m - {k}
      case Fail(_, _) => m
      case Retire(k) => if path(k) == [] then m else m - {k}
  }

  /** After every run, failed adds included, the tree answers every lookup as the finite map does. */
  lemma {:induction false} RunIsMap<K(!new)>(path: K -> Path, ops: seq<Op<K>>, k: K)
    requires forall a, b :: path(a) == path(b) ==> a == b
    ensures Get(RunTree(path, ops), path(k)) == if k in RunMap(path, ops) then Some(RunMap(path, ops)[k]) else None
  {
    if ops != [] {
      var before, op := ops[..|ops| - 1], ops[|ops| - 1];
      var t, p := RunTree(path, before), path(op.key);
      RunIsMap(path, before, k);
      RunIsMap(path, before, op.key);
      if op.Bind? { AddDelGet(t, p, op.link, path(k)); }
      if op.Unbind? { AddDelGet(t, p, 0, path(k)); }
      if op.Fail? && op.made <= |p| { GrowGet(t, p, op.made, path(k)); }
    }
  }

  /** A run whose calls all run to the end leaves exactly the nodes its answers need. */
  lemma {:induction false} RunIsCanonical<K>(path: K -> Path, ops: seq<Op<K>>)
    requires forall i | 0 <= i < |ops| :: ops[i].Bind? || ops[i].Unbind?
    ensures Canonical(RunTree(path, ops))
  {
    if ops != [] {
      var before, op := ops[..|ops| - 1], ops[|ops| - 1];
      var t, p := RunTree(path, before), path(op.key);
      RunIsCanonical(path, before);
      if op.Bind? {
        AddCanonical(t, p, op.link);
      } else if Get(t, p).Some? {
        DelCanonical(t, p);
      }
    }
  }
}
