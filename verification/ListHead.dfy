/** The intrusive circular list: entries on the heap whose pointers spell out a sequence. */
module ListHead {
  class Entry {
    var prev: Entry
    var next: Entry

    constructor ()
      ensures Ring(this, [])
    {
      prev, next := this, this;
    }

    method Init()
      modifies this
      ensures Ring(this, [])
    {
      next := this;
      prev := this;
    }
  }

  ghost predicate Joined(a: Entry, b: Entry)
    reads a, b
  {
    a.next == b && b.prev == a
  }

  /** Entry `i` of the ring; the head stands before the first entry and after the last. */
  ghost function At(head: Entry, s: seq<Entry>, i: int): Entry { if 0 <= i < |s| then s[i] else head }

  ghost predicate JoinedAt(head: Entry, s: seq<Entry>, i: int)
    reads head, s
  {
    Joined(At(head, s, i - 1), At(head, s, i))
  }

  /** Starting at `head`, the pointers run through exactly the entries of `s` and back, both ways. */
  ghost predicate Ring(head: Entry, s: seq<Entry>)
    reads head, s
  {
    && head !in s && (forall i, j | 0 <= i < j < |s| :: s[i] != s[j])
    && (forall i | 0 <= i <= |s| :: JoinedAt(head, s, i))
  }

  method AddHead(head: Entry, list: Entry, ghost s: seq<Entry>)
    requires Ring(head, s) && list != head && list !in s
    modifies head, s, list
    ensures Ring(head, [list] + s)
  {
    var next := head.next;
    ghost var s' := [list] + s;
    assert JoinedAt(head, s, 0);
    list.prev := head;
    head.next := list;
    list.next := next;
    next.prev := list;
    forall i | 0 <= i <= |s'| ensures JoinedAt(head, s', i) {
      if 2 <= i { assert old(JoinedAt(head, s, i - 1)); }
    }
  }

  method AddTail(head: Entry, list: Entry, ghost s: seq<Entry>)
    requires Ring(head, s) && list != head && list !in s
    modifies head, s, list
    ensures Ring(head, s + [list])
  {
    var prev := head.prev;
    ghost var s' := s + [list];
    assert JoinedAt(head, s, |s|);
    list.prev := prev;
    prev.next := list;
    list.next := head;
    head.prev := list;
    forall i | 0 <= i <= |s'| ensures JoinedAt(head, s', i) {
      if i < |s| { assert old(JoinedAt(head, s, i)); }
    }
  }

  method DelHead(head: Entry, ghost s: seq<Entry>)
    requires Ring(head, s)
    modifies head, s
    ensures Ring(head, if s == [] then [] else s[1..])
  {
    ghost var s' := if s == [] then [] else s[1..];
    assert JoinedAt(head, s, 0);
    assert s != [] ==> JoinedAt(head, s, 1);
    var next := head.next.next;
    head.next := next;
    next.prev := head;
    forall i | 0 <= i <= |s'| ensures JoinedAt(head, s', i) {
      if 1 <= i { assert old(JoinedAt(head, s, i + 1)); }
    }
  }

  method DelTail(head: Entry, ghost s: seq<Entry>)
    requires Ring(head, s)
    modifies head, s
    ensures Ring(head, if s == [] then [] else s[..|s| - 1])
  {
    ghost var s' := if s == [] then [] else s[..|s| - 1];
    assert JoinedAt(head, s, |s|);
    assert s != [] ==> JoinedAt(head, s, |s| - 1);
    var prev := head.prev.prev;
    head.prev := prev;
    prev.next := head;
    forall i | 0 <= i <= |s'| ensures JoinedAt(head, s', i) {
      if i < |s'| { assert old(JoinedAt(head, s, i)); }
    }
  }

  /** Unlink entry `k` of a ring and leave it in a ring of its own. */
  method Del(list: Entry, ghost head: Entry, ghost s: seq<Entry>, ghost k: nat)
    requires Ring(head, s) && k < |s| && s[k] == list
    modifies head, s
    ensures Ring(head, s[..k] + s[k + 1..]) && Ring(list, [])
  {
    ghost var s' := s[..k] + s[k + 1..];
    assert JoinedAt(head, s, k) && JoinedAt(head, s, k + 1);
    var prev, next := list.prev, list.next;
    prev.next := next;
    next.prev := prev;
    list.Init();
    forall i | 0 <= i <= |s'| ensures JoinedAt(head, s', i) {
      if i < k { assert old(JoinedAt(head, s, i)); }
      if k < i { assert old(JoinedAt(head, s, i + 1)); }
    }
  }

  /** Is the entry in the ring?  One pointer walks right and one left until they meet or come back
      to the head. */
  method ForEach(head: Entry, list: Entry, ghost s: seq<Entry>) returns (found: bool)
    requires Ring(head, s)
    ensures found <==> list in s
  {
    ghost var n, k := |s|, 0;
    assert JoinedAt(head, s, 0) && JoinedAt(head, s, n);
    var right, left := head.next, head.prev;
    while right != head && left != head
      invariant k <= n && right == At(head, s, k) && left == At(head, s, n - 1 - k)
      invariant forall i | 0 <= i < |s| && (i < k || n - k <= i) :: s[i] != list
      decreases n - k
    {
      if left == list || right == list { return true; }
      if left == right {
        assert k == n - 1 - k;
        return false;
      }
      assert JoinedAt(head, s, k + 1) && JoinedAt(head, s, n - 1 - k);
      right, left := right.next, left.prev;
      k := k + 1;
    }
    return false;
  }

  ghost function Without(s: seq<Entry>, e: Entry): seq<Entry> {
    if s == [] then [] else if s[0] == e then s[1..] else [s[0]] + Without(s[1..], e)
  }

  /** Unlink an entry if it is in this ring; any other entry is left alone. */
  method DelSafe(head: Entry, list: Entry, ghost s: seq<Entry>)
    requires Ring(head, s)
    modifies head, s, list
    ensures list in s ==> Ring(head, Without(s, list)) && Ring(list, [])
    ensures list !in s ==> unchanged(head) && unchanged(s) && unchanged(list)
  {
    var found := ForEach(head, list, s);
    if found {
      ghost var k :| 0 <= k < |s| && s[k] == list;
      WithoutAt(s, k);
      Del(list, head, s, k);
    }
  }

  lemma {:induction false} WithoutAt(s: seq<Entry>, k: nat)
    requires k < |s| && forall i, j | 0 <= i < j < |s| :: s[i] != s[j]
    ensures Without(s, s[k]) == s[..k] + s[k + 1..]
  {
    if 0 < k {
      WithoutAt(s[1..], k - 1);
      assert s[..k] + s[k + 1..] == [s[0]] + (s[1..][..k - 1] + s[1..][k..]);
    }
  }

  /** Any entry can play the head: seen from entry `k` the ring is the same, turned. */
  lemma Turned(head: Entry, s: seq<Entry>, k: nat)
    requires Ring(head, s) && k < |s|
    ensures Ring(s[k], s[k + 1..] + [head] + s[..k])
  {
    var t := s[k + 1..] + [head] + s[..k];
    forall i | 0 <= i <= |t| ensures JoinedAt(s[k], t, i) {
      var j := if i + k + 1 <= |s| then i + k + 1 else i + k - |s|;
      assert JoinedAt(head, s, j);
    }
  }

  lemma {:induction false} SamePrefix(head: Entry, s: seq<Entry>, t: seq<Entry>, k: nat)
    requires Ring(head, s) && Ring(head, t) && k <= |s|
    ensures k <= |t| && s[..k] == t[..k]
  {
    if 0 < k {
      SamePrefix(head, s, t, k - 1);
      assert At(head, s, k - 2) == At(head, t, k - 2);
      assert JoinedAt(head, s, k - 1) && JoinedAt(head, t, k - 1);
      assert s[k - 1] in s;
    }
  }

  /** The pointers leave no choice: a head has one sequence. */
  lemma RingUnique(head: Entry, s: seq<Entry>, t: seq<Entry>)
    requires Ring(head, s) && Ring(head, t)
    ensures s == t
  {
    SamePrefix(head, s, t, |s|);
    SamePrefix(head, t, s, |t|);
  }
}
