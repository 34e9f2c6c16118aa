/** What an add that runs out of memory does to a later deletion. */
module TrieCases {
  import opened Options
  import opened PathTree
  import opened NodeStore
  import opened TrieTree

  lemma {:induction false} GrowPresent(t: Tree, p: Path, k: nat)
    requires Closed(t.Keys) && k <= |p| && p[..k] in t
    ensures Grow(t, p, k) == t
  {
    if 0 < k {
      assert Parent(p[..k]) == p[..k - 1];
      GrowPresent(t, p, k - 1);
    }
  }

  /** One level of `p` is missing, below a node without an array: one allocation is not enough. */
  lemma OneShort(t: Tree, p: Path, k: nat)
    requires Closed(t.Keys) && p != [] && Parent(p) in t && p !in t
    ensures LastPresent(t, p) == Parent(p) && 1 < Needed(t, p, false, |p|)
    ensures Starved(t, p, false, 1, k) ==> k == |p| - 1 && Needed(t, p, false, k) == 0 && !LastArray(t, p, false, k)
  {
    assert Depth(t.Keys, p) == |p| - 1;
  }

  /** A bound name that leads nowhere, an add one character further with memory for the array but not for
      the node, and the deletion of the name: the name is unbound, but its node stays. */
  method StarvedAddKeepsNode(trie: TrieTree, name: Name, c: char, link: Link, id: int) returns (added: bool, deleted: bool)
    requires trie.Valid() && name != "" && Printable(c) && link != 0 && Granted(trie.nodes, [id], 0)
    requires Get(trie.Tree(), Offsets(name)).Some? && !HasChild(trie.Tree(), Offsets(name)) && Offsets(name) !in trie.loose
    modifies trie
    ensures trie.Valid() && !added && deleted
    ensures trie.Tree() == old(trie.Tree())[Offsets(name) := None]
  {
    ghost var p, t := Offsets(name), trie.Tree();
    var longer := name + [c];
    ghost var q := Offsets(longer);
    LongerName(name, c);
    BareLeaf(trie.nodes, trie.at, trie.extra, trie.loose, p, q);
    ghost var k;
    added, k := trie.Add(longer, link, [id]);
    OneShort(t, q, k);
    GrowPresent(t, q, |p|);
    deleted := trie.Delete(name);
  }

  lemma LongerName(name: Name, c: char)
    requires Printable(c)
    ensures Good(name + [c]) == |name| + 1 && Offsets(name + [c]) == Offsets(name) + [Offset(c)]
    ensures Parent(Offsets(name + [c])) == Offsets(name)
  {
    assert (name + [c])[..|name|] == name;
  }

  lemma BareLeaf(nodes: map<int, Node>, at: map<Path, int>, extra: set<int>, loose: set<Path>, p: Path, q: Path)
    requires Shape(SIZE, nodes, at, extra) && Tight(nodes, at, loose, {})
    requires p in at && p !in loose && !HasChild(View(nodes, at), p) && q != [] && Parent(q) == p
    ensures !HasArray(nodes, at[p]) && q !in at
  {
    LooseIsStale(nodes, at, extra, loose, p);
    assert IsChild(q, p);
    assert q in at ==> q in View(nodes, at);
  }

  lemma Leaf(t: Tree, p: Path)
    requires t == map[[] := None, p := Some(5)] && |p| == 1
    ensures !HasChild(t, p)
  {
  }

  method BoundName() returns (trie: TrieTree, bound: bool)
    ensures fresh(trie) && trie.Valid() && bound && trie.loose == {} && trie.nodes.Keys <= {ROOT, 2, 3}
    ensures trie.Tree() == map[[] := None, Offsets("a") := Some(5)]
  {
    trie := new TrieTree();
    ghost var p := Offsets("a");
    assert Good("a") == 1 && p == [65];
    assert Depth(PathTree.EMPTY.Keys, p) == 0 && LastPresent(PathTree.EMPTY, p) == [];
    ghost var k;
    bound, k := trie.Add("a", 5, [2, 3]);
    assert p[..0] == [] && p[..1] == p;
  }

  /** The same at one input: "a" is bound, "ab" fails, "a" is deleted and its node is still there. */
  method StaleNode() returns (trie: TrieTree, bound: bool, added: bool, deleted: bool)
    ensures fresh(trie) && trie.Valid() && bound && !added && deleted
    ensures trie.Tree() == map[[] := None, Offsets("a") := None]
  {
    trie, bound := BoundName();
    Leaf(trie.Tree(), Offsets("a"));
    assert Good("a") == 1;
    added, deleted := StarvedAddKeepsNode(trie, "a", 'b', 6, 4);
  }
}
