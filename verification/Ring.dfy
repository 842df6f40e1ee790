/** The intrusive circular list of `include/list.h` on the heap, as the sequence of nodes
    after its head. */
module Ring {
  import opened Queues

  /** `list_node_t`; a new node is linked to itself, as by `list_init_head`. */
  class Node {
    var prev: Node
    var next: Node

    constructor ()
      ensures IsRing(this, [])
    {
      prev, next := this, this;
    }
  }

  /** The node at position `i` of the ring that starts at `head`, goes through `s`, and
      comes back to `head`. */
  function At(head: Node, s: seq<Node>, i: int): Node
    requires 0 <= i <= |s| + 1
  {
    if i == 0 || i == |s| + 1 then head else s[i - 1]
  }

  /** `prev` and `next` are inverse around the ring, and no node occurs twice. */
  ghost predicate IsRing(head: Node, s: seq<Node>)
    reads head, s
  {
    && NoDup(s) && head !in s
    && forall i :: 0 <= i <= |s| ==>
      At(head, s, i).next == At(head, s, i + 1) && At(head, s, i + 1).prev == At(head, s, i)
  }

  /** No node of the ring `(h, t)` is among `used`. */
  ghost predicate Apart(h: Node, t: seq<Node>, used: seq<Node>) {
    h !in used && forall x :: x in t ==> x !in used
  }

  lemma InsertedAt(head: Node, s: seq<Node>, k: nat, x: Node, i: nat)
    requires k <= |s| && i <= |s| + 2
    ensures At(head, Inserted(s, k, x), i) == if i <= k then At(head, s, i) else if i == k + 1 then x else At(head, s, i - 1)
  {
  }

  lemma DeletedAt(head: Node, s: seq<Node>, k: nat, i: nat)
    requires k < |s| && i <= |s|
    ensures At(head, Deleted(s, k), i) == if i <= k then At(head, s, i) else At(head, s, i + 1)
  {
  }

  lemma InsertedNoDup(s: seq<Node>, k: nat, x: Node)
    requires k <= |s| && NoDup(s) && x !in s
    ensures NoDup(Inserted(s, k, x)) && forall y :: y in Inserted(s, k, x) <==> y == x || y in s
  {
    assert s == s[..k] + s[k..];
    NoDupParts(s[..k], s[k..]);
    NoDupConcat([x], s[k..]);
    NoDupConcat(s[..k], [x] + s[k..]);
    assert s[..k] + ([x] + s[k..]) == Inserted(s, k, x);
  }

  lemma DeletedNoDup(s: seq<Node>, k: nat)
    requires k < |s| && NoDup(s)
    ensures NoDup(Deleted(s, k)) && forall y :: y in Deleted(s, k) <==> y in s && y != s[k]
  {
    WithoutSplit(s, k);
    WithoutMembers(s, s[k]);
  }

  method Front(head: Node, ghost s: seq<Node>) returns (n: Node)
    requires IsRing(head, s)
    ensures n == if s == [] then head else s[0]
  {
    assert At(head, s, 0).next == At(head, s, 1);
    n := head.next;
  }

  method Back(head: Node, ghost s: seq<Node>) returns (n: Node)
    requires IsRing(head, s)
    ensures n == if s == [] then head else s[|s| - 1]
  {
    assert At(head, s, |s| + 1).prev == At(head, s, |s|);
    n := head.prev;
  }

  method Empty(head: Node, ghost s: seq<Node>) returns (b: bool)
    requires IsRing(head, s)
    ensures b <==> s == []
  {
    var n := Front(head, s);
    b := head == n;
  }

  /** `list_insert` before `pos`, which is entry `k` or the head. Any other list `(h, t)`
      is left as it was. */
  method Insert(pos: Node, node: Node, ghost head: Node, ghost s: seq<Node>, ghost k: nat)
    requires IsRing(head, s) && k <= |s| && pos == At(head, s, k + 1) && node != head && node !in s
    modifies pos, pos.prev, node
    ensures IsRing(head, Inserted(s, k, node))
    ensures forall h: Node, t: seq<Node> :: old(allocated(h) && allocated(t) && IsRing(h, t)) && Apart(h, t, [head, node] + s) ==> IsRing(h, t)
  {
    ghost var p := At(head, s, k);
    assert pos.prev == p && p.next == pos;
    RingIndices(head, s);
    pos.prev.next := node;
    node.prev := pos.prev;
    node.next := pos;
    pos.prev := node;
    InsertedNoDup(s, k, node);
    forall i | 0 <= i <= |s| + 1
      ensures At(head, Inserted(s, k, node), i).next == At(head, Inserted(s, k, node), i + 1)
      ensures At(head, Inserted(s, k, node), i + 1).prev == At(head, Inserted(s, k, node), i)
    {
      InsertedAt(head, s, k, node, i);
      InsertedAt(head, s, k, node, i + 1);
    }
    forall h: Node, t: seq<Node> | old(allocated(h) && allocated(t) && IsRing(h, t)) && Apart(h, t, [head, node] + s)
      ensures IsRing(h, t)
    {
      assert p in [head, node] + s && pos in [head, node] + s && node in [head, node] + s;
      forall i | 0 <= i <= |t| + 1
        ensures At(h, t, i).next == old(At(h, t, i).next) && At(h, t, i).prev == old(At(h, t, i).prev)
      {
      }
    }
  }

  method PushFront(head: Node, node: Node, ghost s: seq<Node>)
    requires IsRing(head, s) && node != head && node !in s
    modifies head, s, node
    ensures IsRing(head, [node] + s)
  {
    var pos := Front(head, s);
    assert pos.prev == head by { assert At(head, s, 1).prev == At(head, s, 0); }
    Insert(pos, node, head, s, 0);
    assert Inserted(s, 0, node) == [node] + s;
  }

  method PushBack(head: Node, node: Node, ghost s: seq<Node>)
    requires IsRing(head, s) && node != head && node !in s
    modifies head, s, node
    ensures IsRing(head, s + [node])
  {
    assert head.prev == At(head, s, |s|) by { assert At(head, s, |s| + 1).prev == At(head, s, |s|); }
    Insert(head, node, head, s, |s|);
    assert Inserted(s, |s|, node) == s + [node];
  }

  /** `list_remove` of entry `k`, or of a node linked only to itself, which changes nothing.
      Any other list `(h, t)` is left as it was. */
  method Remove(node: Node, ghost head: Node, ghost s: seq<Node>, ghost k: nat)
    requires IsRing(head, s) && k <= |s| && node == At(head, s, k + 1) && (k == |s| ==> s == [])
    modifies node.prev, node.next
    ensures k < |s| ==> IsRing(head, Deleted(s, k))
    ensures k == |s| ==> IsRing(head, s)
    ensures node.prev == old(node.prev) && node.next == old(node.next)
    ensures forall h: Node, t: seq<Node> :: old(allocated(h) && allocated(t) && IsRing(h, t)) && Apart(h, t, [head] + s) ==> IsRing(h, t)
  {
    RingIndices(head, s);
    ghost var before, after := node.prev, node.next;
    assert before == At(head, s, k);
    if k < |s| {
      assert node.next == At(head, s, k + 2);
    }
    node.prev.next := node.next;
    node.next.prev := node.prev;
    if k < |s| {
      DeletedNoDup(s, k);
      forall i | 0 <= i < |s|
        ensures At(head, Deleted(s, k), i).next == At(head, Deleted(s, k), i + 1)
        ensures At(head, Deleted(s, k), i + 1).prev == At(head, Deleted(s, k), i)
      {
        DeletedAt(head, s, k, i);
        DeletedAt(head, s, k, i + 1);
      }
    }
    forall h: Node, t: seq<Node> | old(allocated(h) && allocated(t) && IsRing(h, t)) && Apart(h, t, [head] + s)
      ensures IsRing(h, t)
    {
      assert before in [head] + s && after in [head] + s;
      forall i | 0 <= i <= |t| + 1
        ensures At(h, t, i).next == old(At(h, t, i).next) && At(h, t, i).prev == old(At(h, t, i).prev)
      {
      }
    }
  }

  /** `list_remove_init`: the node ends up linked to itself. */
  method RemoveInit(node: Node, ghost head: Node, ghost s: seq<Node>, ghost k: nat)
    requires IsRing(head, s) && k < |s| && node == s[k]
    modifies head, s
    ensures IsRing(head, Deleted(s, k)) && IsRing(node, [])
  {
    Neighbours(head, s, k);
    Remove(node, head, s, k);
    DeletedNoDup(s, k);
    node.prev := node;
    node.next := node;
  }

  method PopFront(head: Node, ghost s: seq<Node>)
    requires IsRing(head, s) && s != []
    modifies head, s
    ensures IsRing(head, s[1..])
  {
    var n := Front(head, s);
    Neighbours(head, s, 0);
    Remove(n, head, s, 0);
    assert Deleted(s, 0) == s[1..];
  }

  method PopBack(head: Node, ghost s: seq<Node>)
    requires IsRing(head, s) && s != []
    modifies head, s
    ensures IsRing(head, s[..|s| - 1])
  {
    var n := Back(head, s);
    Neighbours(head, s, |s| - 1);
    Remove(n, head, s, |s| - 1);
    assert Deleted(s, |s| - 1) == s[..|s| - 1];
  }

  lemma Neighbours(head: Node, s: seq<Node>, k: nat)
    requires IsRing(head, s) && k < |s|
    ensures s[k].prev == At(head, s, k) && s[k].next == At(head, s, k + 2)
  {
    assert At(head, s, k + 1) == s[k];
    assert At(head, s, k + 1).next == At(head, s, k + 1 + 1);
  }

  /** Positions of a ring, the closing one aside, are distinct nodes. */
  lemma RingIndices(head: Node, s: seq<Node>)
    requires NoDup(s) && head !in s
    ensures forall i, j :: 0 <= i < j <= |s| ==> At(head, s, i) != At(head, s, j)
    ensures forall i, j :: 1 <= i < j <= |s| + 1 ==> At(head, s, i) != At(head, s, j)
  {
  }
}
