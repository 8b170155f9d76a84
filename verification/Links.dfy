/** The kernel's singly linked lists: a first pointer and nodes that carry a next pointer. */
module Links {

  class Node<T> {
    var val: T
    var next: Node?<T>

    constructor (v: T)
      ensures val == v && next == null
    {
      val := v;
      next := null;
    }
  }

  /** Following next from first visits exactly the nodes of s, in order, and ends in null. */
  ghost predicate Linked<T>(first: Node?<T>, s: seq<Node<T>>)
    reads s
  {
    && first == (if s == [] then null else s[0])
    && (forall i :: 0 <= i < |s| ==> (s[i].next == null <==> i == |s| - 1))
    && (forall i :: 0 <= i < |s| - 1 ==> s[i].next == s[i + 1])
    && (forall i, j :: 0 <= i < j < |s| ==> s[i] != s[j])
  }

  ghost function Vals<T>(s: seq<Node<T>>): (r: seq<T>)
    reads s
    ensures |r| == |s| && forall i :: 0 <= i < |s| ==> r[i] == s[i].val
  {
    seq(|s|, i requires 0 <= i < |s| reads s => s[i].val)
  }

  /** The walk to the end that every append in the kernel performs. */
  method Tail<T>(first: Node<T>, ghost s: seq<Node<T>>) returns (t: Node<T>)
    requires Linked(first, s)
    ensures s != [] && t == s[|s| - 1]
  {
    t := first;
    ghost var i := 0;
    while t.next != null
      invariant 0 <= i < |s| && t == s[i]
      decreases |s| - i
    {
      t := t.next;
      i := i + 1;
    }
  }

  /** A chain determines its nodes: two sequences linked from the same first pointer are equal. */
  lemma {:induction false} LinkedUnique<T>(first: Node?<T>, s: seq<Node<T>>, t: seq<Node<T>>)
    requires Linked(first, s) && Linked(first, t)
    ensures s == t
    decreases |s|
  {
    if s != [] && t != [] {
      assert Linked(s[0].next, s[1..]) && Linked(t[0].next, t[1..]);
      LinkedUnique(s[0].next, s[1..], t[1..]);
    }
  }
}
