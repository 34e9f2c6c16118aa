/** The trie: printable names as paths of character offsets over nodes whose branch array is
    allocated with their first child. */
module TrieTree {
  import opened Machine
  import opened Options
  import opened PathTree
  import opened NodeStore

  const SIZE: nat := 95

  predicate Printable(c: char) { ' ' <= c <= '~' }

  function Offset(c: char): nat { if Printable(c) then c as int - ' ' as int else 0 }

  function Offsets(name: string): (p: Path)
    ensures |p| == |name| && forall i | 0 <= i < |p| :: p[i] == Offset(name[i])
  {
    if name == "" then [] else Offsets(name[..|name| - 1]) + [Offset(name[|name| - 1])]
  }

  /** How many characters of a name come before the first one that has no branch. */
  function Good(name: string): (k: nat)
    ensures k <= |name| && forall i | 0 <= i < k :: Printable(name[i])
    ensures k < |name| ==> !Printable(name[k])
  {
    if name == "" || !Printable(name[0]) then 0 else 1 + Good(name[1..])
  }

  /** The names with a path are those of characters from 32 to 126, and the path goes by the distance from 32. */
  lemma NamesAre(name: string)
    ensures Good(name) == |name| <==> forall i | 0 <= i < |name| :: 32 <= name[i] as int <= 126
    ensures forall i | 0 <= i < Good(name) :: Offsets(name)[i] == name[i] as int - 32
  {
    var k := Good(name);
    if k < |name| { assert !Printable(name[k]); }
  }

  type Name = s: string | Good(s) == |s| witness ""

  lemma OffsetsInjective(m: Name, n: Name)
    requires Offsets(m) == Offsets(n)
    ensures m == n
  {
    assert |m| == |n|;
    forall i | 0 <= i < |m| ensures m[i] == n[i] {
      assert Offsets(m)[i] == Offset(m[i]) && Offsets(n)[i] == Offset(n[i]);
    }
  }

  function NamePath(name: Name): Path { Offsets(name) }

  ghost function Stepped(t: PathTree.Tree, op: Op<Name>): PathTree.Tree { Step(NamePath, t, op) }

  /** Over a whole run of calls, failed adds included, the trie is a finite map keyed by names. */
  lemma TrieRunIsMap(ops: seq<Op<Name>>, name: Name)
    ensures Get(RunTree(NamePath, ops), Offsets(name))
         == if name in RunMap(NamePath, ops) then Some(RunMap(NamePath, ops)[name]) else None
  {
    forall m: Name, n: Name | NamePath(m) == NamePath(n) ensures m == n { OffsetsInjective(m, n); }
    RunIsMap(NamePath, ops, name);
  }

  // ---------------------------------------------------------------------------
  // Branch arrays

  predicate HasArray(nodes: map<int, Node>, a: int) { a in nodes && nodes[a].branches != [] }

  /** A node with a branch array and no child. */
  ghost predicate StaleAt(nodes: map<int, Node>, at: map<Path, int>, p: Path)
    requires p in at
  {
    HasArray(nodes, at[p]) && !exists d: nat :: d < SIZE && Child(p, d) in at
  }

  /** `loose` are exactly the paths with a branch array and no child, as far as the paths outside `but`
      are concerned. */
  ghost predicate Tight(nodes: map<int, Node>, at: map<Path, int>, loose: set<Path>, but: set<Path>) {
    && loose <= at.Keys
    && forall p {:trigger StaleAt(nodes, at, p)} | p in at && p !in but :: p in loose <==> StaleAt(nodes, at, p)
  }

  lemma LinkedTight(nodes: map<int, Node>, at: map<Path, int>, loose: set<Path>, q: Path, d: nat, id: int)
    requires Shape(SIZE, nodes, at, {}) && Tight(nodes, at, loose, {}) && d < SIZE && id !in nodes && Child(q, d) !in at
    requires q in at && at[q] in nodes && d < |nodes[at[q]].branches|
    ensures Tight(Linked(nodes, at[q], d, id, []), at[Child(q, d) := id], loose - {q}, {})
  {
    var nodes', at' := Linked(nodes, at[q], d, id, []), at[Child(q, d) := id];
    forall p | p in at' ensures p in loose - {q} <==> StaleAt(nodes', at', p) {
      if p == q {
        assert Child(p, d) in at';
      } else if p in at {
        assert NodeOk(SIZE, nodes, at, p);
        assert p in loose <==> StaleAt(nodes, at, p);
        forall e: nat | e < SIZE ensures Child(p, e) in at' <==> Child(p, e) in at { ChildInjective(p, e, q, d); }
      }
    }
  }

  /** Rewriting the node of `q` leaves every other node as it was. */
  lemma RebranchTight(nodes: map<int, Node>, at: map<Path, int>, loose: set<Path>, but: set<Path>, q: Path, node: Node)
    requires Tight(nodes, at, loose, but) && but <= {q}
    requires q in at && forall p | p in at && at[p] == at[q] :: p == q
    ensures Tight(nodes[at[q] := node], at, loose, {q})
    ensures at[q] in nodes && node.branches == nodes[at[q]].branches ==> Tight(nodes[at[q] := node], at, loose, but)
  {
    var nodes' := nodes[at[q] := node];
    forall p | p in at && p !in but ensures p != q ==> (p in loose <==> StaleAt(nodes', at, p))
      ensures at[q] in nodes && node.branches == nodes[at[q]].branches ==> (p in loose <==> StaleAt(nodes', at, p))
    {
      assert p in loose <==> StaleAt(nodes, at, p);
    }
  }

  /** What was open about `q` is settled. */
  lemma TightAgain(nodes: map<int, Node>, at: map<Path, int>, loose: set<Path>, loose': set<Path>, q: Path)
    requires Tight(nodes, at, loose, {q}) && q in at && (loose' == loose || loose' == loose + {q})
    requires q in loose' <==> StaleAt(nodes, at, q)
    ensures Tight(nodes, at, loose', {})
  {
    forall p | p in at ensures p in loose' <==> StaleAt(nodes, at, p) {
      if p != q { assert p in loose <==> StaleAt(nodes, at, p); }
    }
  }

  lemma CutTight(nodes: map<int, Node>, at: map<Path, int>, loose: set<Path>, c: Path)
    requires Tight(nodes, at, loose, {}) && c in at && c != [] && c[|c| - 1] < SIZE && !HasArray(nodes, at[c])
    ensures Tight(nodes, at - {c}, loose, {Parent(c)}) && (Parent(c) in at ==> Parent(c) !in loose)
  {
    assert c in loose <==> StaleAt(nodes, at, c);
    ChildOfParent(c);
    if Parent(c) in at {
      assert Parent(c) in loose <==> StaleAt(nodes, at, Parent(c));
    }
    forall p | p in at - {c} && p != Parent(c) ensures p in loose <==> StaleAt(nodes, at - {c}, p) {
      assert p in loose <==> StaleAt(nodes, at, p);
      forall d: nat | d < SIZE ensures Child(p, d) in at - {c} <==> Child(p, d) in at { }
    }
  }

  /** `loose` is no bound but the very set: the nodes with a branch array and no child. */
  lemma LooseIsStale(nodes: map<int, Node>, at: map<Path, int>, extra: set<int>, loose: set<Path>, p: Path)
    requires Shape(SIZE, nodes, at, extra) && Tight(nodes, at, loose, {}) && p in at
    ensures p in loose <==> HasArray(nodes, at[p]) && !HasChild(View(nodes, at), p)
  {
    assert p in loose <==> StaleAt(nodes, at, p);
    ChildInView(SIZE, nodes, at, extra, p);
  }

  /** While no add has failed midway, a node has a branch array exactly when it has a child. */
  lemma ArrayMeansChild(nodes: map<int, Node>, at: map<Path, int>, extra: set<int>, p: Path)
    requires Shape(SIZE, nodes, at, extra) && Tight(nodes, at, {}, {}) && p in at
    ensures HasArray(nodes, at[p]) <==> HasChild(View(nodes, at), p)
  {
    BranchesLeft(SIZE, nodes, at, extra, p);
    LooseIsStale(nodes, at, extra, {}, p);
  }

  lemma NoArrayNoChild(nodes: map<int, Node>, at: map<Path, int>, extra: set<int>, p: Path)
    requires Shape(SIZE, nodes, at, extra) && p in at && !HasArray(nodes, at[p])
    ensures forall d: nat | d < SIZE :: Child(p, d) !in at
  {
    NodeAtNull(SIZE, nodes, at, extra, p);
    forall d: nat | d < SIZE ensures Child(p, d) !in at {
      assert BranchOk(nodes[at[p]].branches, at, p, d);
      NodeAtNull(SIZE, nodes, at, extra, Child(p, d));
    }
  }

  lemma ChildrenKept(t: PathTree.Tree, p: Path)
    requires p in t
    ensures HasChild(t[p := None], p) <==> HasChild(t, p)
  {
    assert forall c :: c in t[p := None] <==> c in t;
  }

  lemma FreeTight(nodes: map<int, Node>, at: map<Path, int>, loose: set<Path>, id: int)
    requires Tight(nodes, at, loose, {}) && forall p | p in at :: at[p] != id
    ensures Tight(nodes - {id}, at, loose, {})
  {
    forall p | p in at ensures p in loose <==> StaleAt(nodes - {id}, at, p) {
      assert p in loose <==> StaleAt(nodes, at, p);
    }
  }

  /** Allocations still to be made on the first `k` levels of `p`: a node and a branch array for each
      missing level, less the array that the last node present may have already. */
  ghost function Needed(t: PathTree.Tree, p: Path, arrayed: bool, k: nat): nat {
    var d := Depth(t.Keys, p);
    if k <= d then 0 else 2 * (k - d) - (if arrayed then 1 else 0)
  }

  /** With `n` allocations to come an add makes `k` levels and no more. */
  ghost predicate Starved(t: PathTree.Tree, p: Path, arrayed: bool, n: nat, k: nat) {
    k < |p| && Needed(t, p, arrayed, k) <= n < Needed(t, p, arrayed, k + 1)
  }

  /** Level `k` is the last one that was present, and had its array. */
  ghost predicate LastArray(t: PathTree.Tree, p: Path, arrayed: bool, k: nat) { arrayed && k == Depth(t.Keys, p) }

  /** The node that gets a child when an add makes `k` levels. */
  ghost function Covered(t: PathTree.Tree, p: Path, k: nat): set<Path> {
    if Depth(t.Keys, p) < k then {LastPresent(t, p)} else {}
  }

  /** The node that a starved add leaves with an array and no child. */
  ghost function LeftOver(t: PathTree.Tree, p: Path, arrayed: bool, n: nat, k: nat): set<Path>
    requires k <= |p|
  {
    if LastArray(t, p, arrayed, k) || n <= Needed(t, p, arrayed, k) then {} else {p[..k]}
  }

  ghost function LastPresent(t: PathTree.Tree, p: Path): Path { p[..Depth(t.Keys, p)] }

  // ---------------------------------------------------------------------------
  // Whole runs

  /** What one call does to the nodes with an array and no child: some get a child, some are left so. */
  datatype Change = Change(covered: set<Path>, left: set<Path>)

  ghost function LooseAfter(changes: seq<Change>): set<Path> {
    if changes == [] then {}
    else
      var n := |changes| - 1;
      LooseAfter(changes[..n]) - changes[n].covered + changes[n].left
  }

  /** After every run the nodes that a deletion leaves in place are those where some add ran out of memory
      between the array and the child, and no add has hung a child below since. */
  lemma {:induction false} LooseOverRun(changes: seq<Change>, p: Path)
    ensures p in LooseAfter(changes) <==> exists i :: LeftFrom(changes, p, i)
  {
    if changes != [] {
      var n := |changes| - 1;
      var before := changes[..n];
      LooseOverRun(before, p);
      if i :| LeftFrom(before, p, i) {
        if p !in changes[n].covered { assert LeftFrom(changes, p, i); }
      }
      if p in changes[n].left { assert LeftFrom(changes, p, n); }
      if i :| LeftFrom(changes, p, i) {
        if i < n { assert LeftFrom(before, p, i); }
      }
    }
  }

  ghost predicate LeftFrom(changes: seq<Change>, p: Path, i: int) {
    0 <= i < |changes| && p in changes[i].left && forall j | i < j < |changes| :: p !in changes[j].covered
  }

  ghost function Addresses(grants: seq<int>): set<int> { set a | a in grants }

  class TrieTree {
    var nodes: map<int, Node>
    ghost var at: map<Path, int>
    ghost var extra: set<int>
    ghost var loose: set<Path>

    ghost predicate Valid()
      reads this
    {
      Shape(SIZE, nodes, at, extra) && Tight(nodes, at, loose, {}) && extra == {}
    }

    ghost function Tree(): PathTree.Tree
      reads this
    {
      View(nodes, at)
    }

    /** The node of `p` is there and has a branch array. */
    ghost predicate Arrayed(p: Path)
      reads this
    {
      p in at && HasArray(nodes, at[p])
    }

    constructor ()
      ensures Valid() && Tree() == PathTree.EMPTY && loose == {} && nodes.Keys == {ROOT} && !Arrayed([])
    {
      nodes, at, extra, loose := map[ROOT := Node(NULL, [], 0)], map[[] := ROOT], {}, {};
      new;
      EmptyShape(SIZE, nodes, at, []);
    }

    /** Follow a name from the root; a character without a branch is a fault once it is reached. */
    method Follow(name: string, ghost p: Path, ghost good: nat) returns (node: int, fault: bool)
      requires Valid() && p == Offsets(name) && good == Good(name)
      ensures fault <==> good < |name| && p[..good] in at
      ensures node == if good == |name| then NodeAt(at, p) else NULL
    {
      var k := 0;
      node := ROOT;
      assert p[..0] == [] && NodeOk(SIZE, nodes, at, []);
      while node != NULL
        invariant k <= good && node == NodeAt(at, p[..k])
        decreases |name| - k, node != NULL
      {
        NodeAtNull(SIZE, nodes, at, extra, p[..k]);
        if k == |name| {
          assert p[..k] == p;
          return node, false;
        }
        if !Printable(name[k]) { return NULL, true; }
        NextNode(SIZE, nodes, at, extra, p, k);
        node := BranchAt(nodes[node].branches, Offset(name[k]));
        k := k + 1;
      }
      assert p[..good][..k] == p[..k] && p[..|p|] == p;
      NoPathBelow(SIZE, nodes, at, extra, p[..good], k);
      NodeAtNull(SIZE, nodes, at, extra, p[..good]);
      return NULL, false;
    }

    /** The node of a name that is bound. */
    method Find(name: string) returns (node: int, fault: bool)
      requires Valid()
      ensures fault <==> Good(name) < |name| && Offsets(name)[..Good(name)] in at
      ensures node != NULL <==> Good(name) == |name| && Get(Tree(), Offsets(name)).Some?
      ensures node != NULL ==> Offsets(name) in at && node == at[Offsets(name)]
    {
      node, fault := Follow(name, Offsets(name), Good(name));
      NodeAtNull(SIZE, nodes, at, extra, Offsets(name));
      if node != NULL && nodes[node].link == 0 { node := NULL; }
    }

    /** The link bound to a name, or zero. */
    method LookUp(name: string) returns (link: Link)
      requires Valid()
      ensures AsOption(link) == if Good(name) == |name| then Get(Tree(), Offsets(name)) else None
    {
      var node, fault := Find(name);
      NodeAtNull(SIZE, nodes, at, extra, Offsets(name));
      if fault || node == NULL { return 0; }
      link := nodes[node].link;
    }

    /** Give a node its branch array. */
    method CreateBranches(node: int, ghost q: Path)
      requires Valid() && q in at && at[q] == node && node in nodes && nodes[node].branches == []
      modifies this
      ensures Valid() && Arrayed(q) && at == old(at) && nodes.Keys == old(nodes).Keys && Tree() == old(Tree())
      ensures loose == old(loose) + {q}
      ensures |nodes[node].branches| == SIZE
    {
      RebranchShape(SIZE, nodes, at, extra, q, Blank(SIZE));
      RebranchTight(nodes, at, loose, {}, q, nodes[node].(branches := Blank(SIZE)));
      NoArrayNoChild(nodes, at, extra, q);
      nodes := nodes[node := nodes[node].(branches := Blank(SIZE))];
      TightAgain(nodes, at, loose, loose + {q}, q);
      loose := loose + {q};
    }

    /** Hang a new node at address `id` below a node that has its array. */
    method LinkNode(node: int, d: nat, id: int, ghost q: Path)
      requires Valid() && q in at && at[q] == node && node in nodes && |nodes[node].branches| == SIZE && d < SIZE
      requires id != NULL && id !in nodes && Child(q, d) !in at
      modifies this
      ensures Valid() && loose == old(loose) - {q}
      ensures at == old(at)[Child(q, d) := id] && nodes.Keys == old(nodes).Keys + {id}
      ensures Tree() == old(Tree())[Child(q, d) := None] && !HasArray(nodes, id)
    {
      NodeAtNull(SIZE, nodes, at, extra, q);
      LinkedShape(SIZE, nodes, at, q, d, id, []);
      LinkedView(SIZE, nodes, at, q, d, id, []);
      LinkedTight(nodes, at, loose, q, d, id);
      nodes := Linked(nodes, node, d, id, []);
      at := at[Child(q, d) := id];
      loose := loose - {q};
    }

    /** Make branch `d` of a node, with its array if it has none yet. */
    method MakeChild(node: int, d: nat, grants: seq<int>, used: nat, ghost q: Path) returns (next: int, used': nat)
      requires Valid() && q in at && at[q] == node && node in nodes && d < SIZE && Child(q, d) !in at
      requires Granted(nodes, grants, used)
      modifies this
      ensures Valid() && Granted(nodes, grants, used')
      ensures next != NULL <==> used + (if HasArray(old(nodes), node) then 1 else 2) <= |grants|
      ensures nodes.Keys <= old(nodes).Keys + Addresses(grants)
      ensures if next != NULL then
                at == old(at)[Child(q, d) := next] && Tree() == old(Tree())[Child(q, d) := None] && loose == old(loose) - {q}
                && used' == used + (if HasArray(old(nodes), node) then 1 else 2) && !HasArray(nodes, next)
              else at == old(at) && Tree() == old(Tree()) && (Arrayed(q) <==> HasArray(old(nodes), node) || used < |grants|)
                   && loose == old(loose) + (if HasArray(old(nodes), node) || used == |grants| then {} else {q})
    {
      next, used' := NULL, used;
      if nodes[node].branches == [] {
        if used' == |grants| { return; }
        CreateBranches(node, q);
        used' := used' + 1;
      }
      NodeAtNull(SIZE, nodes, at, extra, q);
      if used' == |grants| { return; }
      next := grants[used'];
      LinkNode(node, d, next, q);
      used' := used' + 1;
    }

    /** Go to branch `d` of a node, making it and the branch array if need be. */
    method Advance(node: int, d: nat, grants: seq<int>, used: nat, ghost q: Path) returns (next: int, used': nat)
      requires Valid() && q in at && at[q] == node && d < SIZE && Granted(nodes, grants, used)
      modifies this
      ensures Valid() && Granted(nodes, grants, used') && nodes.Keys <= old(nodes).Keys + Addresses(grants)
      ensures next != NULL ==> Child(q, d) in at && next == at[Child(q, d)]
      ensures Child(q, d) in old(at) ==> next != NULL && used' == used && unchanged(this)
      ensures Child(q, d) !in old(at) ==>
        var more := if old(Arrayed(q)) then 1 else 2;
        && (next != NULL <==> used + more <= |grants|)
        && if next != NULL then
             && used' == used + more && Tree() == old(Tree())[Child(q, d) := None] && !Arrayed(Child(q, d))
             && loose == old(loose) - {q}
           else
             && Tree() == old(Tree()) && (Arrayed(q) <==> old(Arrayed(q)) || used < |grants|)
             && loose == old(loose) + (if old(Arrayed(q)) || used == |grants| then {} else {q})
    {
      NodeAtNull(SIZE, nodes, at, extra, q);
      NodeAtNull(SIZE, nodes, at, extra, Child(q, d));
      assert BranchOk(nodes[node].branches, at, q, d);
      next, used' := BranchAt(nodes[node].branches, d), used;
      if next == NULL {
        next, used' := MakeChild(node, d, grants, used, q);
      }
    }

    /** How far an add has come: `k` levels of `p` are there, reached at `node`, and as many grants are
        used as those levels needed. */
    ghost predicate Reached(t0: PathTree.Tree, p: Path, arrayed: bool, used: nat, node: int, k: nat)
      reads this
    {
      && k <= |p| && p[..k] in at && node == at[p[..k]] && Tree() == Grow(t0, p, k)
      && used == Needed(t0, p, arrayed, k)
      && (k <= Depth(t0.Keys, p) ==> (Arrayed(LastPresent(t0, p)) <==> arrayed))
      && (k > Depth(t0.Keys, p) ==> !Arrayed(p[..k]))
    }

    method AdvanceTo(node: int, d: nat, grants: seq<int>, used: nat,
                     ghost t0: PathTree.Tree, ghost p: Path, ghost arrayed: bool, ghost k: nat)
      returns (next: int, used': nat)
      requires Valid() && Closed(t0.Keys) && Reached(t0, p, arrayed, used, node, k) && Granted(nodes, grants, used)
      requires k < |p| && d == p[k] && d < SIZE
      modifies this
      ensures Valid() && Granted(nodes, grants, used') && nodes.Keys <= old(nodes).Keys + Addresses(grants)
      ensures next != NULL ==> Reached(t0, p, arrayed, used', next, k + 1)
      ensures next != NULL ==> loose == old(loose) - (if k == Depth(t0.Keys, p) then {LastPresent(t0, p)} else {})
      ensures next == NULL ==> Tree() == Grow(t0, p, k) && Starved(t0, p, arrayed, |grants|, k)
      ensures next == NULL ==> (Arrayed(p[..k]) <==> LastArray(t0, p, arrayed, k) || used < |grants|)
      ensures next == NULL ==> loose == old(loose) + LeftOver(t0, p, arrayed, |grants|, k)
    {
      assert p[..k + 1] == Child(p[..k], d);
      GrowNext(t0, p, k);
      assert p[..k] in loose <==> StaleAt(nodes, at, p[..k]);
      next, used' := Advance(node, d, grants, used, p[..k]);
    }

    /** Make the nodes on the way to a name; `grants` are the addresses the allocator hands out. */
    method MakePath(name: string, grants: seq<int>, ghost p: Path, ghost t0: PathTree.Tree, ghost arrayed: bool)
      returns (node: int, ghost k: nat)
      requires Valid() && Good(name) == |name| && Granted(nodes, grants, 0)
      requires p == Offsets(name) && t0 == Tree() && arrayed == Arrayed(LastPresent(t0, p))
      modifies this
      ensures Valid() && nodes.Keys <= old(nodes).Keys + Addresses(grants)
      ensures node != NULL <==> Needed(t0, p, arrayed, |p|) <= |grants|
      ensures node != NULL ==> p in at && node == at[p] && k == |p| && loose == old(loose) - Covered(t0, p, k)
      ensures k <= |p| && Tree() == Grow(t0, p, k)
      ensures node == NULL ==> Starved(t0, p, arrayed, |grants|, k) && loose == old(loose) - Covered(t0, p, k) + LeftOver(t0, p, arrayed, |grants|, k)
      ensures node == NULL ==> (Arrayed(p[..k]) <==> LastArray(t0, p, arrayed, k) || Needed(t0, p, arrayed, k) < |grants|)
    {
      var i, used := 0, 0;
      node, k := ROOT, 0;
      assert Reached(t0, p, arrayed, 0, ROOT, 0) by { assert p[..0] == [] && NodeOk(SIZE, nodes, at, []); }
      while i < |name|
        invariant i == k <= |p| && node != NULL && loose == old(loose) - Covered(t0, p, k) && nodes.Keys <= old(nodes).Keys + Addresses(grants)
        invariant Valid()
        invariant Reached(t0, p, arrayed, used, node, k)
        invariant Granted(nodes, grants, used)
      {
        node, used := AdvanceTo(node, Offset(name[i]), grants, used, t0, p, arrayed, k);
        if node == NULL {
          assert Needed(t0, p, arrayed, k + 1) <= Needed(t0, p, arrayed, |p|);
          return;
        }
        i, k := i + 1, k + 1;
      }
      assert p[..|p|] == p;
    }

    /** Bind a link to a name that has none.  A name with a character that has no branch is refused
        when the search reaches it.  `k` is how many levels are there afterwards.  An add that runs out
        of memory leaves an array at the last node made exactly when the memory lasted for it. */
    method Add(name: string, link: Link, grants: seq<int>) returns (ok: bool, ghost k: nat)
      requires Valid() && Granted(nodes, grants, 0)
      requires link == 0 || Good(name) == |name| || Offsets(name)[..Good(name)] in at
      modifies this
      ensures Valid() && nodes.Keys <= old(nodes).Keys + Addresses(grants)
      ensures var p := Offsets(name);
        && (ok <==> link != 0 && Good(name) == |name| && Get(old(Tree()), p) == None
                    && Needed(old(Tree()), p, old(Arrayed(LastPresent(Tree(), p))), |p|) <= |grants|)
        && (ok ==> Tree() == PathTree.Add(old(Tree()), p, link) && loose == old(loose) - Covered(old(Tree()), p, |p|))
        && (!ok && (link == 0 || Good(name) < |name| || Get(old(Tree()), p).Some?) ==> unchanged(this))
      ensures !ok && link != 0 && Good(name) == |name| && Get(old(Tree()), Offsets(name)) == None ==>
        var p, t0, n := Offsets(name), old(Tree()), |grants|;
        var arrayed := old(Arrayed(LastPresent(Tree(), Offsets(name))));
        && Starved(t0, p, arrayed, n, k) && Tree() == Grow(t0, p, k)
        && (Arrayed(p[..k]) <==> LastArray(t0, p, arrayed, k) || Needed(t0, p, arrayed, k) < n)
        && loose == old(loose) - Covered(t0, p, k) + LeftOver(t0, p, arrayed, n, k)
      ensures Good(name) == |name| ==> Tree() == Stepped(old(Tree()), if ok then Bind(name, link) else Fail(name, k))
    {
      ghost var p := Offsets(name);
      k := 0;
      if link == 0 { return false, 0; }
      var node, fault := Find(name);
      if fault || node != NULL { return false, 0; }
      node, k := MakePath(name, grants, p, Tree(), Arrayed(LastPresent(Tree(), p)));
      if node == NULL { return false, k; }
      BoundShape(SIZE, nodes, at, extra, p, link);
      BoundView(nodes, at, p, link);
      RebranchTight(nodes, at, loose, {}, p, nodes[node].(link := link));
      nodes := Bound(nodes, node, link);
      return true, k;
    }

    /** Clear the branch to `child`, which moves it out of the tree, and tell whether the node has a
        branch left. */
    method ClearBranch(node: int, child: int, ghost p: Path, ghost c: Path) returns (left: bool)
      requires Shape(SIZE, nodes, at, extra) && Tight(nodes, at, loose, {}) && p in at && at[p] == node
      requires child != NULL && Leaving(nodes, at, child, p, c) && !HasArray(nodes, child)
      modifies this
      ensures Shape(SIZE, nodes, at, extra) && extra == old(extra) + {child} && loose == old(loose)
      ensures Tight(nodes, at, loose, {p}) && p !in loose && (left ==> Tight(nodes, at, loose, {}))
      ensures p in at && at[p] == node && node in nodes && nodes.Keys == old(nodes).Keys
      ensures nodes[node].parent == old(nodes)[node].parent && nodes[node].link == old(nodes)[node].link
      ensures Tree() == old(Tree()) - {c}
      ensures left <==> HasChild(Tree(), p)
    {
      DistinctBranches(SIZE, nodes, at, extra, p);
      var branches;
      branches, left := ScanBranches(nodes[node].branches, child);
      LeafCut(SIZE, nodes, at, extra, p, c, branches, nodes[node := nodes[node].(branches := branches)], at - {c});
      NodeAtNull(SIZE, nodes, at, extra, c);
      CutTight(nodes, at, loose, c);
      at := at - {c};
      extra := extra + {child};
      RebranchTight(nodes, at, loose, {p}, p, nodes[node].(branches := branches));
      nodes := nodes[node := nodes[node].(branches := branches)];
      ChildInView(SIZE, nodes, at, extra, p);
      if left { TightAgain(nodes, at, loose, loose, p); }
    }

    /** Give back the array of a node that has no child left. */
    method FreeBranches(node: int, ghost p: Path)
      requires Shape(SIZE, nodes, at, extra) && Tight(nodes, at, loose, {p}) && p in at && at[p] == node && node in nodes
      requires !HasChild(Tree(), p) && p !in loose
      modifies this`nodes
      ensures Shape(SIZE, nodes, at, extra) && Tight(nodes, at, loose, {}) && nodes.Keys == old(nodes).Keys
      ensures nodes[node] == old(nodes)[node].(branches := []) && Tree() == old(Tree())
    {
      BranchesLeft(SIZE, nodes, at, extra, p);
      RebranchShape(SIZE, nodes, at, extra, p, []);
      RebranchTight(nodes, at, loose, {p}, p, nodes[node].(branches := []));
      nodes := nodes[node := nodes[node].(branches := [])];
      TightAgain(nodes, at, loose, loose, p);
    }

    /** Give up a node that carries nothing: free it once it is cleared out of its parent. */
    method GiveUp(node: int, ghost p: Path)
      requires Shape(SIZE, nodes, at, extra) && Tight(nodes, at, loose, {}) && p in at && at[p] == node && node in nodes
      requires Get(Tree(), p) == None && !HasChild(Tree(), p) && !HasArray(nodes, node)
      modifies this
      ensures Shape(SIZE, nodes, at, extra) && Tight(nodes, at, loose, {}) && extra == old(extra) && loose == old(loose)
      ensures Tree() == Prune(old(Tree()), p)
      decreases |p|, 1
    {
      RootPath(SIZE, nodes, at, extra, p);
      NodeAtNull(SIZE, nodes, at, extra, p);
      if node == ROOT {
        DelNode(nodes[node].parent, node, p, p);
        return;
      }
      assert p in at.Keys && Parent(p) in at;
      NodeAtNull(SIZE, nodes, at, extra, Parent(p));
      DelNode(nodes[node].parent, node, Parent(p), p);
      FreeShape(SIZE, nodes, at, extra, node);
      FreeTight(nodes, at, loose, node);
      nodes := nodes - {node};
      extra := extra - {node};
    }

    /** Clear the branch to `child` and give up the array, and then the node, if nothing is left. */
    method DelNode(node: int, child: int, ghost p: Path, ghost c: Path)
      requires Shape(SIZE, nodes, at, extra) && Tight(nodes, at, loose, {})
      requires node != NULL ==> p in at && at[p] == node && node in nodes && Leaving(nodes, at, child, p, c)
      requires node != NULL && child == NULL ==> Get(Tree(), p) == None
      requires child != NULL ==> !HasArray(nodes, child)
      modifies this
      ensures Shape(SIZE, nodes, at, extra) && Tight(nodes, at, loose, {}) && loose == old(loose)
      ensures node == NULL ==> unchanged(this)
      ensures node != NULL ==> extra == old(extra) + (if child == NULL then {} else {child})
      ensures node != NULL ==> Tree() == if child != NULL then Prune(old(Tree()) - {c}, p)
                                         else if HasArray(old(nodes), node) then old(Tree()) else Prune(old(Tree()), p)
      decreases if node == NULL then 0 else |p|, if node == NULL then 0 else 2
    {
      if node == NULL { return; }
      if child == NULL && nodes[node].branches != [] { return; }
      BranchesLeft(SIZE, nodes, at, extra, p);
      if child == NULL {
        GiveUp(node, p);
        return;
      }
      var left := ClearBranch(node, child, p, c);
      if left { return; }
      FreeBranches(node, p);
      if nodes[node].link == 0 { GiveUp(node, p); }
    }

    /** Follow a name for deletion; a missing array or a character without a branch ends the search. */
    method Walk(name: string) returns (node: int)
      requires Valid()
      ensures node == if Good(name) == |name| then NodeAt(at, Offsets(name)) else NULL
    {
      ghost var p := Offsets(name);
      var i := 0;
      node := ROOT;
      assert p[..0] == [] && NodeOk(SIZE, nodes, at, []);
      while i < |name|
        invariant i <= Good(name) && node == NodeAt(at, p[..i])
      {
        NodeAtNull(SIZE, nodes, at, extra, p[..i]);
        if node == NULL || nodes[node].branches == [] {
          if Good(name) == |name| {
            if node != NULL { NextNode(SIZE, nodes, at, extra, p, i); }
            NoPathBelow(SIZE, nodes, at, extra, p, if node == NULL then i else i + 1);
          }
          return NULL;
        }
        if !Printable(name[i]) { return NULL; }
        NextNode(SIZE, nodes, at, extra, p, i);
        node := nodes[node].branches[Offset(name[i])];
        i := i + 1;
      }
      assert p[..i] == p;
    }

    /** Unbind a name and prune what only it needed.  A node that was left with an empty branch array
        is the one that stays. */
    method Delete(name: string) returns (ok: bool)
      requires Valid()
      modifies this
      ensures Valid() && loose == old(loose)
      ensures ok <==> name != "" && Good(name) == |name| && Get(old(Tree()), Offsets(name)).Some?
      ensures !ok ==> Tree() == old(Tree())
      ensures ok ==> Tree() == if Offsets(name) in loose then old(Tree())[Offsets(name) := None]
                               else Del(old(Tree()), Offsets(name))
      ensures Good(name) == |name| ==>
        Tree() == Stepped(old(Tree()), if Offsets(name) in loose then Retire(name) else Unbind(name))
    {
      ghost var p := Offsets(name);
      var node := Walk(name);
      NodeAtNull(SIZE, nodes, at, extra, p);
      if node != NULL { RootPath(SIZE, nodes, at, extra, p); }
      if node == NULL || nodes[node].link == 0 || node == ROOT { return false; }
      ghost var t := Tree();
      BoundShape(SIZE, nodes, at, extra, p, 0);
      BoundView(nodes, at, p, 0);
      RebranchTight(nodes, at, loose, {}, p, nodes[node].(link := 0));
      ChildrenKept(t, p);
      LooseIsStale(nodes, at, extra, loose, p);
      nodes := Bound(nodes, node, 0);
      DelNode(node, NULL, p, []);
      return true;
    }
  }
}
