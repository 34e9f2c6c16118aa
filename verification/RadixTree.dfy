/** The radix tree: numbers as paths of three-bit digits over nodes with eight branches. */
module RadixTree {
  import opened Machine
  import opened Options
  import opened PathTree
  import opened RadixPath
  import opened NodeStore

  /** Every node has all its branches. */
  predicate Full(nodes: map<int, Node>) { forall a | a in nodes :: |nodes[a].branches| == BRANCHES }

  /** The nodes missing on the first `k` levels of `p`. */
  ghost function Needed(t: PathTree.Tree, p: Path, k: nat): nat {
    if k <= Depth(t.Keys, p) then 0 else k - Depth(t.Keys, p)
  }

  class RadixTree {
    var nodes: map<int, Node>
    ghost var at: map<Path, int>
    ghost var extra: set<int>

    ghost predicate Valid()
      reads this
    {
      Shape(BRANCHES, nodes, at, extra) && Full(nodes) && extra == {}
    }

    ghost function Tree(): PathTree.Tree
      reads this
    {
      View(nodes, at)
    }

    constructor ()
      ensures Valid() && Tree() == PathTree.EMPTY
    {
      nodes, at, extra := map[ROOT := Node(NULL, Blank(BRANCHES), 0)], map[[] := ROOT], {};
      new;
      EmptyShape(BRANCHES, nodes, at, Blank(BRANCHES));
    }

    /** Follow the digits of a number from the root. */
    method Walk(number: nat) returns (node: int)
      requires Valid() && number < 0x1_0000_0000
      ensures node == NodeAt(at, PathOf(number))
    {
      var lenth := NumLen(number);
      ghost var p := PathOf(number);
      var value, i := number, 0;
      node := ROOT;
      ghost var k := 0;
      assert p[..0] == [] && NodeOk(BRANCHES, nodes, at, []);
      while i < lenth && node != NULL
        invariant k <= |p| && i == MAX_BRANCH * k
        invariant p[k..] == Digits(value, |p| - k)
        invariant node == NodeAt(at, p[..k])
      {
        NextDigit(p, k, value);
        NextNode(BRANCHES, nodes, at, extra, p, k);
        node := nodes[node].branches[value % 8];
        value := value / 8;
        i := i + MAX_BRANCH;
        k := k + 1;
      }
      if k < |p| { NoPathBelow(BRANCHES, nodes, at, extra, p, k); } else { assert p[..k] == p; }
    }

    /** The link bound to a number, or zero. */
    method LookUp(number: nat) returns (link: Link)
      requires Valid() && number < 0x1_0000_0000
      ensures AsOption(link) == Get(Tree(), PathOf(number))
    {
      var node := Walk(number);
      NodeAtNull(BRANCHES, nodes, at, extra, PathOf(number));
      if node == NULL { return 0; }
      link := nodes[node].link;
    }
  
    /** Go to branch `d` of a node, making it at address `id` if it is not there; NULL for `id`
        says that allocation fails. */
    method Descend(node: int, d: nat, id: int, ghost q: Path) returns (next: int, made: bool)
      requires Valid() && q in at && at[q] == node && d < BRANCHES && (id != NULL ==> id !in nodes)
      modifies this
      ensures Valid() && next == NodeAt(at, Child(q, d))
      ensures next == NULL <==> Child(q, d) !in old(at) && id == NULL
      ensures next != NULL ==> Child(q, d) in at
      ensures made <==> Child(q, d) !in old(at) && id != NULL
      ensures if Child(q, d) in old(at) || id == NULL then unchanged(this)
              else nodes.Keys == old(nodes).Keys + {id} && Tree() == old(Tree())[Child(q, d) := None]
    {
      NodeAtNull(BRANCHES, nodes, at, extra, q);
      NodeAtNull(BRANCHES, nodes, at, extra, Child(q, d));
      assert BranchOk(nodes[node].branches, at, q, d);
      next := nodes[node].branches[d];
      made := next == NULL && id != NULL;
      if made {
        LinkedShape(BRANCHES, nodes, at, q, d, id, Blank(BRANCHES));
        LinkedView(BRANCHES, nodes, at, q, d, id, Blank(BRANCHES));
        nodes := Linked(nodes, node, d, id, Blank(BRANCHES));
        at := at[Child(q, d) := id];
        next := id;
      }
    }

    /** How far an add has come: `k` levels of `p` are there, reached at `node`, and as many grants are
        used as those levels needed. */
    ghost predicate Reached(t0: PathTree.Tree, p: Path, used: nat, node: int, k: nat)
      reads this
    {
      && k <= |p| && p[..k] in at && node == at[p[..k]]
      && Tree() == Grow(t0, p, k) && used == Needed(t0, p, k)
    }

    /** Go one level down towards the end of `p`, with the next address of `grants` in hand. */
    method Advance(node: int, d: nat, grants: seq<int>, used: nat, ghost t0: PathTree.Tree, ghost p: Path, ghost k: nat)
      returns (next: int, used': nat)
      requires Valid() && Granted(nodes, grants, used) && Closed(t0.Keys) && Reached(t0, p, used, node, k)
      requires k < |p| && d == p[k] && d < BRANCHES
      modifies this
      ensures Valid() && Granted(nodes, grants, used')
      ensures next != NULL ==> Reached(t0, p, used', next, k + 1)
      ensures next == NULL ==> Tree() == Grow(t0, p, k) && used == |grants| < Needed(t0, p, |p|)
    {
      assert p[..k + 1] == Child(p[..k], d);
      GrowNext(t0, p, k);
      var id := if used < |grants| then grants[used] else NULL;
      var made;
      next, made := Descend(node, d, id, p[..k]);
      used' := if made then used + 1 else used;
    }

    /** Make the nodes on the way to a number.  `grants` are the addresses the allocator will hand
        out, in order; when they run out allocation fails. */
    method MakePath(number: nat, grants: seq<int>, ghost p: Path, ghost t0: PathTree.Tree) returns (node: int, ghost k: nat)
      requires Valid() && number < 0x1_0000_0000 && Granted(nodes, grants, 0)
      requires p == PathOf(number) && t0 == Tree()
      modifies this
      ensures Valid()
      ensures node != NULL <==> Needed(t0, p, |p|) <= |grants|
      ensures node != NULL ==> p in at && node == at[p] && k == |p|
      ensures k <= |p| && Tree() == Grow(t0, p, k)
      ensures node == NULL ==> k < |p| && Needed(t0, p, k) == |grants|
    {
      var lenth := NumLen(number);
      var value, i, used := number, 0, 0;
      node, k := ROOT, 0;
      assert Reached(t0, p, 0, ROOT, 0) by { assert p[..0] == [] && NodeOk(BRANCHES, nodes, at, []); }
      while i < lenth
        invariant k <= |p| && i == MAX_BRANCH * k && node != NULL
        invariant p[k..] == Digits(value, |p| - k)
        invariant Valid()
        invariant Reached(t0, p, used, node, k)
        invariant Granted(nodes, grants, used)
      {
        NextDigit(p, k, value);
        node, used := Advance(node, value % 8, grants, used, t0, p, k);
        if node == NULL { return; }
        value := value / 8;
        k := k + 1;
        i := i + MAX_BRANCH;
      }
      assert p[..k] == p;
    }

    /** Bind a link to a number that has none. */
    method Add(number: nat, link: Link, grants: seq<int>) returns (ok: bool, ghost k: nat)
      requires Valid() && number < 0x1_0000_0000 && Granted(nodes, grants, 0)
      modifies this
      ensures Valid()
      ensures ok <==> link != 0 && Get(old(Tree()), PathOf(number)) == None
                      && Needed(old(Tree()), PathOf(number), |PathOf(number)|) <= |grants|
      ensures ok ==> Tree() == PathTree.Add(old(Tree()), PathOf(number), link)
      ensures !ok && (link == 0 || Get(old(Tree()), PathOf(number)).Some?) ==> unchanged(this)
      ensures !ok && link != 0 && Get(old(Tree()), PathOf(number)) == None ==>
                k < |PathOf(number)| && Needed(old(Tree()), PathOf(number), k) == |grants|
                && Tree() == Grow(old(Tree()), PathOf(number), k)
      ensures Tree() == Step(PathOf, old(Tree()), if ok then Bind(number, link) else Fail(number, k))
    {
      ghost var p := PathOf(number);
      k := 0;
      if link == 0 { return false, 0; }
      var found := LookUp(number);
      if found != 0 { return false, 0; }
      var node;
      node, k := MakePath(number, grants, p, Tree());
      if node == NULL { return false, k; }
      BoundShape(BRANCHES, nodes, at, extra, p, link);
      BoundView(nodes, at, p, link);
      nodes := Bound(nodes, node, link);
      return true, k;
    }

    /** Clear the branch to `child`, which moves it out of the tree, and tell whether the node has a
        branch left. */
    method ClearBranch(node: int, child: int, ghost p: Path, ghost c: Path) returns (left: bool)
      requires Shape(BRANCHES, nodes, at, extra) && Full(nodes) && p in at && at[p] == node && Leaving(nodes, at, child, p, c)
      modifies this
      ensures Shape(BRANCHES, nodes, at, extra) && Full(nodes) && extra == old(extra) + (if child == NULL then {} else {child})
      ensures p in at && at[p] == node && node in nodes && nodes.Keys == old(nodes).Keys
      ensures nodes[node].parent == old(nodes)[node].parent && nodes[node].link == old(nodes)[node].link
      ensures Tree() == if child == NULL then old(Tree()) else old(Tree()) - {c}
      ensures left <==> HasChild(Tree(), p)
    {
      DistinctBranches(BRANCHES, nodes, at, extra, p);
      var branches;
      branches, left := ScanBranches(nodes[node].branches, child);
      if child == NULL {
        assert branches == nodes[node].branches;
        BranchesLeft(BRANCHES, nodes, at, extra, p);
        assert nodes[node := nodes[node].(branches := branches)] == nodes;
      } else {
        LeafCut(BRANCHES, nodes, at, extra, p, c, branches, nodes[node := nodes[node].(branches := branches)], at - {c});
        at := at - {c};
        extra := extra + {child};
      }
      nodes := nodes[node := nodes[node].(branches := branches)];
    }

    /** Clear the branch to `child`, and if the node is left with nothing give it up too: clear it
        out of its parent, level by level, and free it afterwards. */
    method DelNode(node: int, child: int, ghost p: Path, ghost c: Path)
      requires Shape(BRANCHES, nodes, at, extra) && Full(nodes)
      requires if node == NULL then child == NULL else p in at && at[p] == node && Leaving(nodes, at, child, p, c)
      modifies this
      ensures Shape(BRANCHES, nodes, at, extra) && Full(nodes) && extra == old(extra) + (if child == NULL then {} else {child})
      ensures node != NULL ==> Tree() == Prune(if child == NULL then old(Tree()) else old(Tree()) - {c}, p)
      ensures node == NULL ==> unchanged(this)
      decreases if node == NULL then 0 else |p| + 1
    {
      if node == NULL { return; }
      var left := ClearBranch(node, child, p, c);
      if left || nodes[node].link != 0 { return; }
      NodeAtNull(BRANCHES, nodes, at, extra, p);
      if node == ROOT {
        RootPath(BRANCHES, nodes, at, extra, p);
        return;
      }
      assert p != [] && Parent(p) in at;
      NodeAtNull(BRANCHES, nodes, at, extra, Parent(p));
      DelNode(nodes[node].parent, node, Parent(p), p);
      FreeShape(BRANCHES, nodes, at, extra, node);
      nodes := nodes - {node};
      extra := extra - {node};
    }

    /** Unbind a number and prune what only it needed. */
    method Delete(number: nat) returns (ok: bool)
      requires Valid() && number < 0x1_0000_0000
      modifies this
      ensures Valid()
      ensures ok <==> Get(old(Tree()), PathOf(number)).Some?
      ensures Tree() == if ok then Del(old(Tree()), PathOf(number)) else old(Tree())
      ensures Tree() == Step(PathOf, old(Tree()), Unbind(number))
    {
      ghost var p := PathOf(number);
      var node := Walk(number);
      NodeAtNull(BRANCHES, nodes, at, extra, p);
      if node == NULL || nodes[node].link == 0 { return false; }
      BoundShape(BRANCHES, nodes, at, extra, p, 0);
      BoundView(nodes, at, p, 0);
      nodes := Bound(nodes, node, 0);
      DelNode(node, NULL, p, []);
      return true;
    }
  }

  /** Over a whole run of calls the radix tree is a finite map keyed by numbers. */
  lemma RadixRunIsMap(ops: seq<Op<nat>>, number: nat)
    ensures Get(RunTree(PathOf, ops), PathOf(number))
         == if number in RunMap(PathOf, ops) then Some(RunMap(PathOf, ops)[number]) else None
  {
    forall m: nat, n: nat | PathOf(m) == PathOf(n) ensures m == n { PathInjective(m, n); }
    RunIsMap(PathOf, ops, number);
  }
}
