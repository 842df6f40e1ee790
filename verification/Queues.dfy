/** Sequence views of the kernel's intrusive lists: what `list_remove` does to the
    sequence of entries a list holds, and the absence of repeated entries. */
module Queues {

  datatype Option<+T> = None | Some(value: T)

  ghost predicate NoDup<T>(q: seq<T>) {
    forall i, j :: 0 <= i < j < |q| ==> q[i] != q[j]
  }

  function Elems<T(==)>(q: seq<T>): set<T> {
    set x | x in q
  }

  /** The list with `x` inserted in front of entry `k`. */
  function Inserted<T>(q: seq<T>, k: nat, x: T): seq<T>
    requires k <= |q|
  {
    q[..k] + [x] + q[k..]
  }

  /** The list without entry `k`. */
  function Deleted<T>(q: seq<T>, k: nat): seq<T>
    requires k < |q|
  {
    q[..k] + q[k + 1..]
  }

  /** The list after `list_remove` of the node of `x`. */
  function Without<T(==)>(q: seq<T>, x: T): (r: seq<T>)
    ensures x !in q ==> r == q
    ensures x in q ==> |r| == |q| - 1
  {
    if q == [] then []
    else if q[0] == x then q[1..]
    else [q[0]] + Without(q[1..], x)
  }

  /** Removing an entry of a list without repetitions removes exactly that entry and
      keeps the order of the others. */
  lemma {:induction false} WithoutMembers<T>(q: seq<T>, x: T)
    requires NoDup(q)
    ensures NoDup(Without(q, x))
    ensures forall y :: y in Without(q, x) <==> y in q && y != x
  {
    if q != [] {
      assert forall y :: y in q <==> y == q[0] || y in q[1..];
      if q[0] != x {
        WithoutMembers(q[1..], x);
        assert q[0] !in q[1..];
        NoDupCons(q[0], Without(q[1..], x));
      }
    }
  }

  lemma NoDupCons<T>(x: T, q: seq<T>)
    requires NoDup(q) && x !in q
    ensures NoDup([x] + q)
  {
  }

  /** A list without repetitions that holds `x` is split by it in one way only. */
  lemma {:induction false} WithoutSplit<T>(q: seq<T>, k: nat)
    requires NoDup(q) && k < |q|
    ensures Without(q, q[k]) == Deleted(q, k)
  {
    if k > 0 {
      WithoutSplit(q[1..], k - 1);
      assert q[1..][..k - 1] == q[1..k];
      assert q[1..][k - 1 + 1..] == q[k + 1..];
    }
  }

  lemma NoDupConcat<T>(a: seq<T>, b: seq<T>)
    requires NoDup(a) && NoDup(b) && forall x :: x in a ==> x !in b
    ensures NoDup(a + b)
  {
    forall i, j | 0 <= i < j < |a + b| ensures (a + b)[i] != (a + b)[j] {
      if i < |a| { assert (a + b)[i] in a; }
    }
  }

  lemma NoDupParts<T>(a: seq<T>, b: seq<T>)
    requires NoDup(a + b)
    ensures NoDup(a) && NoDup(b) && forall x :: x in a ==> x !in b
  {
    var s := a + b;
    assert forall i :: 0 <= i < |a| ==> a[i] == s[i];
    assert forall i :: 0 <= i < |b| ==> b[i] == s[|a| + i];
  }

  lemma {:induction false} NoDupSize<T>(q: seq<T>, s: set<T>)
    requires NoDup(q) && forall x :: x in q ==> x in s
    ensures |q| <= |s|
    decreases q
  {
    if q != [] {
      NoDupSize(q[1..], s - {q[0]});
    }
  }
}
