/** Tree nodes in memory: parent pointers, branch pointers, links.  A node has `arity` branches, or
    none at all while it needs none. */
module NodeStore {
  import opened Machine
  import opened Options
  import opened PathTree

  const ROOT: int := 1

  datatype Node = Node(parent: int, branches: seq<int>, link: Link)

  function AsOption(link: Link): Option<Link> { if link == 0 then None else Some(link) }

  /** `n` branches that lead nowhere. */
  function Blank(n: nat): (r: seq<int>)
    ensures |r| == n && forall i | 0 <= i < n :: r[i] == NULL
  {
    if n == 0 then [] else Blank(n - 1) + [NULL]
  }

  ghost predicate IsBlank(arity: nat, branches: seq<int>) {
    (|branches| == arity || branches == []) && forall i | 0 <= i < |branches| :: branches[i] == NULL
  }

  function BranchAt(branches: seq<int>, d: nat): int { if d < |branches| then branches[d] else NULL }

  // ---------------------------------------------------------------------------
  // Memory that spells out a tree: `at` names the node of each path, `extra` holds nodes that are
  // unlinked and not yet freed.

  ghost function NodeAt(at: map<Path, int>, p: Path): int { if p in at then at[p] else NULL }

  ghost predicate BranchOk(branches: seq<int>, at: map<Path, int>, p: Path, d: nat) {
    BranchAt(branches, d) == NodeAt(at, Child(p, d))
  }

  ghost predicate NodeOk(arity: nat, nodes: map<int, Node>, at: map<Path, int>, p: Path)
    requires p in at
  {
    && at[p] != NULL && at[p] in nodes
    && nodes[at[p]].parent == (if p == [] then NULL else NodeAt(at, Parent(p)))
    && (|nodes[at[p]].branches| == arity || nodes[at[p]].branches == [])
    && (forall d: nat | d < arity :: BranchOk(nodes[at[p]].branches, at, p, d))
    && (p != [] ==> p[|p| - 1] < arity)
    && (p == [] ==> at[p] == ROOT)
  }

  ghost predicate Owned(at: map<Path, int>, extra: set<int>, a: int) { a in extra || exists p :: p in at && at[p] == a }

  ghost predicate Shape(arity: nat, nodes: map<int, Node>, at: map<Path, int>, extra: set<int>) {
    && Closed(at.Keys)
    && (forall p {:trigger NodeOk(arity, nodes, at, p)} | p in at :: NodeOk(arity, nodes, at, p))
    && (forall p, q | p in at && q in at && at[p] == at[q] :: p == q)
    && (forall p | p in at :: at[p] !in extra)
    && (forall a {:trigger Owned(at, extra, a)} | a in nodes :: Owned(at, extra, a))
    && extra <= nodes.Keys
  }

  function LinkAt(nodes: map<int, Node>, a: int): Link { if a in nodes then nodes[a].link else 0 }

  ghost function View(nodes: map<int, Node>, at: map<Path, int>): Tree {
    map p | p in at :: AsOption(LinkAt(nodes, at[p]))
  }

  /** `grants` are the addresses the allocator will hand out, in order; the first `used` are gone. */
  ghost predicate Granted(nodes: map<int, Node>, grants: seq<int>, used: nat) {
    && used <= |grants|
    && (forall i | used <= i < |grants| :: IsValid(grants[i]) && grants[i] !in nodes)
    && (forall i, j | used <= i < j < |grants| :: grants[i] != grants[j])
  }

  lemma EmptyShape(arity: nat, nodes: map<int, Node>, at: map<Path, int>, blank: seq<int>)
    requires nodes == map[ROOT := Node(NULL, blank, 0)] && at == map[[] := ROOT] && IsBlank(arity, blank)
    ensures Shape(arity, nodes, at, {}) && View(nodes, at) == EMPTY
  {
    assert NodeOk(arity, nodes, at, []) by {
      forall e: nat | e < arity ensures BranchOk(blank, at, [], e) { assert Child([], e) !in at; }
    }
    assert forall p | p in at :: p == [];
    forall a | a in nodes ensures Owned(at, {}, a) { assert at[[]] == a; }
  }

  // ---------------------------------------------------------------------------
  // Linking a new node

  /** Node `id` becomes branch `d` of node `a`. */
  function Linked(nodes: map<int, Node>, a: int, d: nat, id: int, blank: seq<int>): map<int, Node>
    requires a in nodes && d < |nodes[a].branches|
  {
    nodes[id := Node(a, blank, 0)][a := nodes[a].(branches := nodes[a].branches[d := id])]
  }

  lemma LinkedOld(arity: nat, nodes: map<int, Node>, at: map<Path, int>, q: Path, d: nat, id: int, blank: seq<int>, p: Path)
    requires q in at && p in at && Child(q, d) !in at && d < arity && id !in nodes && id != NULL
    requires NodeOk(arity, nodes, at, q) && NodeOk(arity, nodes, at, p) && (at[p] == at[q] ==> p == q)
    requires (p != [] ==> Parent(p) in at) && |nodes[at[q]].branches| == arity
    ensures NodeOk(arity, Linked(nodes, at[q], d, id, blank), at[Child(q, d) := id], p)
  {
    var nodes', at' := Linked(nodes, at[q], d, id, blank), at[Child(q, d) := id];
    var branches' := if p == q then nodes[at[p]].branches[d := id] else nodes[at[p]].branches;
    assert nodes'[at[p]] == nodes[at[p]].(branches := branches');
    forall e: nat | e < arity ensures BranchOk(branches', at', p, e) {
      ChildInjective(p, e, q, d);
      assert BranchOk(nodes[at[p]].branches, at, p, e);
    }
  }

  lemma LinkedNew(arity: nat, nodes: map<int, Node>, at: map<Path, int>, q: Path, d: nat, id: int, blank: seq<int>)
    requires q in at && Closed(at.Keys) && Child(q, d) !in at && d < arity && id !in nodes && id != NULL
    requires NodeOk(arity, nodes, at, q) && |nodes[at[q]].branches| == arity && IsBlank(arity, blank)
    ensures NodeOk(arity, Linked(nodes, at[q], d, id, blank), at[Child(q, d) := id], Child(q, d))
  {
    var c := Child(q, d);
    var at' := at[c := id];
    forall e: nat | e < arity ensures BranchOk(blank, at', c, e) { NoOrphan(at.Keys, c, e); }
  }

  lemma LinkedOwned(nodes: map<int, Node>, at: map<Path, int>, q: Path, d: nat, id: int, blank: seq<int>, a: int)
    requires q in at && at[q] in nodes && d < |nodes[at[q]].branches| && Child(q, d) !in at
    requires a in Linked(nodes, at[q], d, id, blank) && (a in nodes ==> Owned(at, {}, a))
    ensures Owned(at[Child(q, d) := id], {}, a)
  {
    var at' := at[Child(q, d) := id];
    if a in nodes {
      var p :| p in at && at[p] == a;
      assert at'[p] == a;
    } else {
      assert at'[Child(q, d)] == a;
    }
  }

  lemma LinkedShape(arity: nat, nodes: map<int, Node>, at: map<Path, int>, q: Path, d: nat, id: int, blank: seq<int>)
    requires Shape(arity, nodes, at, {}) && q in at && Child(q, d) !in at && d < arity && id !in nodes && id != NULL
    requires NodeOk(arity, nodes, at, q) && |nodes[at[q]].branches| == arity && IsBlank(arity, blank)
    ensures Shape(arity, Linked(nodes, at[q], d, id, blank), at[Child(q, d) := id], {})
  {
    var nodes', at' := Linked(nodes, at[q], d, id, blank), at[Child(q, d) := id];
    forall p | p in at' ensures NodeOk(arity, nodes', at', p) {
      if p == Child(q, d) {
        LinkedNew(arity, nodes, at, q, d, id, blank);
      } else {
        assert NodeOk(arity, nodes, at, p) && p in at.Keys;
        LinkedOld(arity, nodes, at, q, d, id, blank, p);
      }
    }
    forall a | a in nodes' ensures Owned(at', {}, a) {
      if a in nodes { assert Owned(at, {}, a); }
      LinkedOwned(nodes, at, q, d, id, blank, a);
    }
    forall p, r | p in at' && r in at' && at'[p] == at'[r] ensures p == r {
      if p in at { assert NodeOk(arity, nodes, at, p); }
      if r in at { assert NodeOk(arity, nodes, at, r); }
    }
  }

  lemma LinkedView(arity: nat, nodes: map<int, Node>, at: map<Path, int>, q: Path, d: nat, id: int, blank: seq<int>)
    requires Shape(arity, nodes, at, {}) && q in at && d < arity && id !in nodes
    requires NodeOk(arity, nodes, at, q) && |nodes[at[q]].branches| == arity
    ensures View(Linked(nodes, at[q], d, id, blank), at[Child(q, d) := id]) == View(nodes, at)[Child(q, d) := None]
  {
    var nodes', at' := Linked(nodes, at[q], d, id, blank), at[Child(q, d) := id];
    forall p | p in at' ensures View(nodes', at')[p] == View(nodes, at)[Child(q, d) := None][p] {
      if p in at { assert NodeOk(arity, nodes, at, p); }
    }
  }

  // ---------------------------------------------------------------------------
  // Setting a link, unlinking and freeing a node

  function Bound(nodes: map<int, Node>, a: int, link: Link): map<int, Node>
    requires a in nodes
  {
    nodes[a := nodes[a].(link := link)]
  }

  lemma BoundNode(arity: nat, nodes: map<int, Node>, at: map<Path, int>, p: Path, link: Link, q: Path)
    requires p in at && q in at && at[p] in nodes && NodeOk(arity, nodes, at, q) && (at[p] == at[q] ==> p == q)
    ensures NodeOk(arity, Bound(nodes, at[p], link), at, q)
  {
    assert Bound(nodes, at[p], link)[at[q]].branches == nodes[at[q]].branches;
  }

  lemma BoundShape(arity: nat, nodes: map<int, Node>, at: map<Path, int>, extra: set<int>, p: Path, link: Link)
    requires Shape(arity, nodes, at, extra) && p in at
    ensures NodeOk(arity, nodes, at, p)
    ensures Shape(arity, Bound(nodes, at[p], link), at, extra)
  {
    assert NodeOk(arity, nodes, at, p);
    var nodes' := Bound(nodes, at[p], link);
    forall q | q in at ensures NodeOk(arity, nodes', at, q) {
      assert NodeOk(arity, nodes, at, q);
      BoundNode(arity, nodes, at, p, link, q);
    }
    forall a | a in nodes' ensures Owned(at, extra, a) { assert Owned(at, extra, a); }
  }

  lemma BoundView(nodes: map<int, Node>, at: map<Path, int>, p: Path, link: Link)
    requires p in at && at[p] in nodes && forall q | q in at && at[q] == at[p] :: q == p
    ensures View(Bound(nodes, at[p], link), at) == View(nodes, at)[p := AsOption(link)]
  {
  }

  /** Branch `d` of node `a` is cleared. */
  function Cut(nodes: map<int, Node>, a: int, d: nat): map<int, Node>
    requires a in nodes && d < |nodes[a].branches|
  {
    nodes[a := nodes[a].(branches := nodes[a].branches[d := NULL])]
  }

  lemma CutNode(arity: nat, nodes: map<int, Node>, at: map<Path, int>, q: Path, d: nat, p: Path)
    requires q in at && p in at && d < arity && p != Child(q, d)
    requires NodeOk(arity, nodes, at, q) && NodeOk(arity, nodes, at, p) && (at[p] == at[q] ==> p == q)
    requires (p == [] || Parent(p) != Child(q, d)) && |nodes[at[q]].branches| == arity
    ensures NodeOk(arity, Cut(nodes, at[q], d), at - {Child(q, d)}, p)
  {
    var at' := at - {Child(q, d)};
    var branches' := if p == q then nodes[at[p]].branches[d := NULL] else nodes[at[p]].branches;
    assert Cut(nodes, at[q], d)[at[p]] == nodes[at[p]].(branches := branches');
    forall e: nat | e < arity ensures BranchOk(branches', at', p, e) {
      ChildInjective(p, e, q, d);
      assert BranchOk(nodes[at[p]].branches, at, p, e);
    }
  }

  lemma CutOwned(at: map<Path, int>, extra: set<int>, c: Path, a: int)
    requires c in at && Owned(at, extra, a)
    ensures Owned(at - {c}, extra + {at[c]}, a)
  {
    if a !in extra {
      var p :| p in at && at[p] == a;
      if p != c { assert (at - {c})[p] == a; }
    }
  }

  /** Unlinking a leaf moves it out of the tree; it is still allocated. */
  lemma CutShape(arity: nat, nodes: map<int, Node>, at: map<Path, int>, extra: set<int>, q: Path, d: nat)
    requires Shape(arity, nodes, at, extra) && q in at && d < arity && Child(q, d) in at
    requires forall p | p in at && p != [] :: Parent(p) != Child(q, d)
    ensures NodeOk(arity, nodes, at, q) && |nodes[at[q]].branches| == arity
    ensures Shape(arity, Cut(nodes, at[q], d), at - {Child(q, d)}, extra + {at[Child(q, d)]})
  {
    var c := Child(q, d);
    assert NodeOk(arity, nodes, at, q) && NodeOk(arity, nodes, at, c);
    assert BranchOk(nodes[at[q]].branches, at, q, d);
    var nodes', at' := Cut(nodes, at[q], d), at - {c};
    forall p | p in at' ensures NodeOk(arity, nodes', at', p) {
      assert NodeOk(arity, nodes, at, p);
      CutNode(arity, nodes, at, q, d, p);
    }
    forall a | a in nodes' ensures Owned(at', extra + {at[c]}, a) {
      assert Owned(at, extra, a);
      CutOwned(at, extra, c, a);
    }
  }

  lemma CutView(arity: nat, nodes: map<int, Node>, at: map<Path, int>, q: Path, d: nat)
    requires q in at && d < arity && NodeOk(arity, nodes, at, q) && |nodes[at[q]].branches| == arity
    ensures View(Cut(nodes, at[q], d), at - {Child(q, d)}) == View(nodes, at) - {Child(q, d)}
  {
  }

  /** A branch array that leads nowhere may be absent, and the other way round. */
  lemma RebranchShape(arity: nat, nodes: map<int, Node>, at: map<Path, int>, extra: set<int>, p: Path, branches: seq<int>)
    requires Shape(arity, nodes, at, extra) && p in at && at[p] in nodes
    requires |branches| == arity || branches == []
    requires forall d: nat | d < arity :: BranchAt(branches, d) == BranchAt(nodes[at[p]].branches, d)
    ensures Shape(arity, nodes[at[p] := nodes[at[p]].(branches := branches)], at, extra)
    ensures View(nodes[at[p] := nodes[at[p]].(branches := branches)], at) == View(nodes, at)
  {
    var nodes' := nodes[at[p] := nodes[at[p]].(branches := branches)];
    forall q | q in at ensures NodeOk(arity, nodes', at, q) {
      assert NodeOk(arity, nodes, at, q);
      forall d: nat | d < arity ensures BranchOk(nodes'[at[q]].branches, at, q, d) {
        assert BranchOk(nodes[at[q]].branches, at, q, d);
      }
    }
    forall a | a in nodes' ensures Owned(at, extra, a) { assert Owned(at, extra, a); }
  }

  lemma FreeShape(arity: nat, nodes: map<int, Node>, at: map<Path, int>, extra: set<int>, id: int)
    requires Shape(arity, nodes, at, extra) && id in extra
    ensures Shape(arity, nodes - {id}, at, extra - {id}) && View(nodes - {id}, at) == View(nodes, at)
  {
    var nodes' := nodes - {id};
    forall p | p in at ensures NodeOk(arity, nodes', at, p) { assert NodeOk(arity, nodes, at, p); }
    forall a | a in nodes' ensures Owned(at, extra - {id}, a) { assert Owned(at, extra, a); }
  }

  lemma ChildInView(arity: nat, nodes: map<int, Node>, at: map<Path, int>, extra: set<int>, p: Path)
    requires Shape(arity, nodes, at, extra) && p in at
    ensures NodeOk(arity, nodes, at, p)
    ensures HasChild(View(nodes, at), p) <==> exists d: nat :: d < arity && Child(p, d) in at
  {
    assert NodeOk(arity, nodes, at, p);
    if HasChild(View(nodes, at), p) {
      var c :| c in View(nodes, at) && IsChild(c, p);
      ChildOfParent(c);
      assert NodeOk(arity, nodes, at, c);
      assert Child(p, c[|c| - 1]) in at;
    }
    if d: nat :| d < arity && Child(p, d) in at {
      assert IsChild(Child(p, d), p);
    }
  }

  // ---------------------------------------------------------------------------
  // The tree

  lemma NodeAtNull(arity: nat, nodes: map<int, Node>, at: map<Path, int>, extra: set<int>, p: Path)
    requires Shape(arity, nodes, at, extra)
    ensures NodeAt(at, p) == NULL <==> p !in at
    ensures p in at ==> NodeOk(arity, nodes, at, p)
  {
    if p in at { assert NodeOk(arity, nodes, at, p); }
  }

  /** Following the branch for the next digit leads to the node of the longer path. */
  lemma NextNode(arity: nat, nodes: map<int, Node>, at: map<Path, int>, extra: set<int>, p: Path, k: nat)
    requires Shape(arity, nodes, at, extra) && k < |p| && p[k] < arity && p[..k] in at
    ensures at[p[..k]] in nodes && at[p[..k]] != NULL
    ensures BranchAt(nodes[at[p[..k]]].branches, p[k]) == NodeAt(at, p[..k + 1])
  {
    assert NodeOk(arity, nodes, at, p[..k]);
    assert p[..k + 1] == Child(p[..k], p[k]);
    assert BranchOk(nodes[at[p[..k]]].branches, at, p[..k], p[k]);
  }

  lemma NoPathBelow(arity: nat, nodes: map<int, Node>, at: map<Path, int>, extra: set<int>, p: Path, k: nat)
    requires Shape(arity, nodes, at, extra) && k <= |p| && NodeAt(at, p[..k]) == NULL
    ensures NodeAt(at, p) == NULL
  {
    NodeAtNull(arity, nodes, at, extra, p[..k]);
    if p in at { PrefixPresent(at.Keys, p, p[..k]); }
  }

  /** `child` is a leaf below `p` that carries nothing, or there is no child. */
  ghost predicate Leaving(nodes: map<int, Node>, at: map<Path, int>, child: int, p: Path, c: Path) {
    child != NULL ==>
      && c in at && at[c] == child && c != [] && Parent(c) == p
      && Get(View(nodes, at), c) == None && !HasChild(View(nodes, at), c)
  }

  lemma DistinctBranches(arity: nat, nodes: map<int, Node>, at: map<Path, int>, extra: set<int>, p: Path)
    requires Shape(arity, nodes, at, extra) && p in at
    ensures NodeOk(arity, nodes, at, p)
    ensures forall i, j | 0 <= i < j < |nodes[at[p]].branches| && nodes[at[p]].branches[i] == nodes[at[p]].branches[j] :: nodes[at[p]].branches[i] == NULL
  {
    assert NodeOk(arity, nodes, at, p);
    var b := nodes[at[p]].branches;
    forall i, j | 0 <= i < j < |b| && b[i] == b[j] ensures b[i] == NULL {
      assert BranchOk(b, at, p, i) && BranchOk(b, at, p, j);
      ChildInjective(p, i, p, j);
    }
  }

  lemma OnlyBranch(arity: nat, nodes: map<int, Node>, at: map<Path, int>, extra: set<int>, p: Path, c: Path, r: seq<int>)
    requires Shape(arity, nodes, at, extra) && p in at && c in at && c != [] && Parent(c) == p
    requires NodeOk(arity, nodes, at, p) && NodeOk(arity, nodes, at, c) && |r| == |nodes[at[p]].branches| == arity
    requires forall i | 0 <= i < arity :: r[i] == if nodes[at[p]].branches[i] == at[c] then NULL else nodes[at[p]].branches[i]
    ensures r == nodes[at[p]].branches[c[|c| - 1] := NULL]
  {
    var b, d := nodes[at[p]].branches, c[|c| - 1];
    ChildOfParent(c);
    forall i | 0 <= i < arity ensures r[i] == b[d := NULL][i] {
      assert BranchOk(b, at, p, i) && BranchOk(b, at, p, d);
      ChildInjective(p, i, p, d);
    }
  }

  lemma LeafHasNoChild(nodes: map<int, Node>, at: map<Path, int>, c: Path)
    requires !HasChild(View(nodes, at), c)
    ensures forall p | p in at && p != [] :: Parent(p) != c
  {
    forall p | p in at && p != [] ensures Parent(p) != c {
      assert p in View(nodes, at);
      assert Parent(p) == c ==> IsChild(p, c);
    }
  }

  lemma BranchesLeft(arity: nat, nodes: map<int, Node>, at: map<Path, int>, extra: set<int>, p: Path)
    requires Shape(arity, nodes, at, extra) && p in at
    ensures NodeOk(arity, nodes, at, p)
    ensures (exists i :: 0 <= i < |nodes[at[p]].branches| && nodes[at[p]].branches[i] != NULL) <==> HasChild(View(nodes, at), p)
  {
    ChildInView(arity, nodes, at, extra, p);
    var b := nodes[at[p]].branches;
    if i :| 0 <= i < |b| && b[i] != NULL {
      assert BranchOk(b, at, p, i);
      assert Child(p, i) in at;
    }
    if d: nat :| d < arity && Child(p, d) in at {
      assert BranchOk(b, at, p, d);
      NodeAtNull(arity, nodes, at, extra, Child(p, d));
    }
  }

  /** Taking the branch to a leaf out of its parent takes the leaf out of the tree. */
  lemma LeafCut(arity: nat, nodes: map<int, Node>, at: map<Path, int>, extra: set<int>, p: Path, c: Path,
                r: seq<int>, nodes': map<int, Node>, at': map<Path, int>)
    requires Shape(arity, nodes, at, extra) && p in at && at[p] in nodes && c in at && at[c] != NULL
    requires Leaving(nodes, at, at[c], p, c) && |r| == |nodes[at[p]].branches| && at' == at - {c}
    requires forall i | 0 <= i < |r| :: r[i] == if nodes[at[p]].branches[i] == at[c] then NULL else nodes[at[p]].branches[i]
    requires nodes' == nodes[at[p] := nodes[at[p]].(branches := r)]
    ensures Shape(arity, nodes', at', extra + {at[c]}) && View(nodes', at') == View(nodes, at) - {c}
    ensures p in at'
    ensures (exists i :: 0 <= i < |r| && r[i] != NULL) <==> HasChild(View(nodes', at'), p)
  {
    ChildOfParent(c);
    NodeAtNull(arity, nodes, at, extra, c);
    LeafHasNoChild(nodes, at, c);
    CutShape(arity, nodes, at, extra, p, c[|c| - 1]);
    CutView(arity, nodes, at, p, c[|c| - 1]);
    OnlyBranch(arity, nodes, at, extra, p, c, r);
    BranchesLeft(arity, nodes', at', extra + {at[c]}, p);
  }

  lemma RootPath(arity: nat, nodes: map<int, Node>, at: map<Path, int>, extra: set<int>, p: Path)
    requires Shape(arity, nodes, at, extra) && p in at
    ensures at[p] == ROOT <==> p == []
  {
    assert NodeOk(arity, nodes, at, []);
  }

  /** Clear the branch that points to `child`, if any, and tell whether a branch is left. */
  method ScanBranches(branches: seq<int>, child: int) returns (r: seq<int>, left: bool)
    requires forall i, j | 0 <= i < j < |branches| && branches[i] == branches[j] :: branches[i] == NULL
    ensures |r| == |branches| && forall i | 0 <= i < |branches| :: r[i] == if branches[i] == child then NULL else branches[i]
    ensures left <==> exists i :: 0 <= i < |branches| && r[i] != NULL
  {
    r := branches;
    var i, count := 0, 0;
    while i < |branches|
      invariant 0 <= i <= |branches| && |r| == |branches|
      invariant forall j | 0 <= j < |branches| :: r[j] == if j < i && branches[j] == child then NULL else branches[j]
      invariant 0 < count <==> exists j :: 0 <= j < i && r[j] != NULL
      invariant count >= 0
    {
      if r[i] == child {
        r := r[i := NULL];
        if 0 < count { return r, true; }
      }
      if r[i] != NULL { count := count + 1; }
      i := i + 1;
    }
    left := 0 < count;
  }
}
