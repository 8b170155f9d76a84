/** The object lists of slub.c in memory: a cache's free objects and a task's used ones are the same
    kind of chain. The two removals are given as the code has them, with exactly when they are
    right, and as the rest of the kernel needs them. */
module SlubLists {
  import opened Links
  import opened Slub
  import opened BuddyLists

  type ObjNode = Node<Obj>

  class ObjList {
    var first: Node?<Obj>
    ghost var nodes: seq<ObjNode>
    ghost var view: seq<Obj>

    ghost predicate Valid()
      reads this, nodes
    {
      Linked(first, nodes) && |view| == |nodes| && forall i :: 0 <= i < |nodes| ==> view[i] == nodes[i].val
    }

    constructor ()
      ensures Valid() && nodes == [] && view == []
    {
      first, nodes, view := null, [], [];
    }

    /** kmem_add_obj, and kmem_add_to_task after it has cleared the object's next pointer. */
    method Append(obj: ObjNode)
      requires Valid() && obj !in nodes && obj.next == null
      modifies this, nodes, obj
      ensures Valid() && nodes == old(nodes) + [obj] && view == old(view) + [obj.val]
      ensures obj.val == old(obj.val)
    {
      if first == null {
        first := obj;
      } else {
        var o := Tail(first, nodes);
        o.next := obj;
      }
      nodes, view := nodes + [obj], view + [obj.val];
    }

    /** kmem_add_to_task of an object that the list has already: it is cut off from what follows it,
        found as the last of what is left, and linked to itself. */
    method AddAgain(obj: ObjNode)
      requires Valid() && obj in nodes
      modifies nodes
      ensures nodes == old(nodes) && first == old(first) && forall x :: x in nodes ==> x.val == old(x.val)
      ensures obj.next == obj && forall x :: x in nodes && x != obj ==> x.next == old(x.next)
    {
      ghost var j := NodeIndex(nodes, obj);
      obj.next := null;
      var o := Tail(first, nodes[..j + 1]);
      o.next := obj;
    }

    /** The walk to the last object and the one before it, or twice the first if it is alone. */
    method LastTwo() returns (p: ObjNode, obj: ObjNode)
      requires Valid() && first != null
      ensures obj == nodes[|nodes| - 1]
      ensures p == if |nodes| == 1 then nodes[0] else nodes[|nodes| - 2]
    {
      p, obj := first, first;
      ghost var i := 0;
      while obj.next != null
        invariant 0 <= i < |nodes| && obj == nodes[i] && p == nodes[if i == 0 then 0 else i - 1]
        decreases |nodes| - i
      {
        p := obj;
        obj := obj.next;
        i := i + 1;
      }
    }

    /** kmem_extract_obj_from_cache as it is written: it takes the last object, but the list loses it
        exactly when it was not alone. */
    method TakeLastAsWritten() returns (obj: Node?<Obj>)
      requires Valid()
      modifies nodes
      ensures nodes == old(nodes) && first == old(first) && forall x :: x in nodes ==> x.val == old(x.val)
      ensures obj == if nodes == [] then null else nodes[|nodes| - 1]
      ensures nodes != [] ==> (Linked(first, nodes[..|nodes| - 1]) <==> |nodes| != 1)
      ensures |nodes| <= 1 ==> Valid()
    {
      obj := first;
      if obj == null { return; }
      var p;
      p, obj := LastTwo();
      p.next := null;
    }

    /** kmem_extract_obj_from_cache, repaired: taking the only object empties the list. */
    method TakeLast() returns (obj: Node?<Obj>)
      requires Valid()
      modifies this, nodes
      ensures Valid() && nodes == (if old(nodes) == [] then [] else old(nodes)[..|old(nodes)| - 1])
      ensures view == (if old(view) == [] then [] else old(view)[..|old(view)| - 1])
      ensures if old(nodes) == [] then obj == null
              else obj == old(nodes)[|old(nodes)| - 1] && obj.next == null && obj.val == old(obj.val)
      ensures obj !in nodes && forall x :: x in nodes ==> x in old(nodes)
    {
      obj := first;
      if obj == null { return; }
      var p;
      p, obj := LastTwo();
      if obj == first { first := null; }
      p.next := null;
      nodes, view := nodes[..|nodes| - 1], view[..|view| - 1];
    }

    /** kmem_get_obj_parent: the object before the one at the address, or that one if it is first. */
    method Parent(a: nat) returns (p: Node?<Obj>)
      requires Valid() && a != 0
      ensures var i := Find(view, a);
              p == if i < 0 then null else nodes[if i == 0 then 0 else i - 1]
    {
      var o := first;
      p := o;
      if o == null { return; }
      if o.val.addr == a { return; }
      ghost var i := 0;
      while o != null
        invariant 0 <= i <= |nodes| && o == (if i < |nodes| then nodes[i] else null)
        invariant p == nodes[if i == 0 then 0 else i - 1]
        invariant forall j :: 0 <= j < i ==> view[j].addr != a
        decreases |nodes| - i
      {
        if o.val.addr == a { return; }
        p := o;
        o := o.next;
        i := i + 1;
      }
      return null;
    }

    /** kmem_extract_obj_child: unlinks and returns the object after parent, or returns parent. */
    method Child(parent: Node?<Obj>, ghost i: nat) returns (child: Node?<Obj>)
      requires Valid() && (parent != null ==> i < |nodes| && parent == nodes[i])
      modifies nodes
      ensures nodes == old(nodes) && first == old(first) && forall x :: x in nodes ==> x.val == old(x.val)
      ensures parent == null ==> child == null && Linked(first, nodes)
      ensures parent != null && i == |nodes| - 1 ==> child == parent && Linked(first, nodes)
      ensures parent != null && i < |nodes| - 1 ==> child == nodes[i + 1] && child.next == null && Linked(first, Cut(nodes, i + 1))
    {
      if parent == null { return null; }
      if parent.next == null { return parent; }
      child := parent.next;
      assert child == nodes[i + 1];
      assert i + 2 < |nodes| ==> child.next == nodes[i + 2];
      parent.next := child.next;
      child.next := null;
      CutLinked(first, nodes, i);
    }

    /** kmem_extract_obj as it is written: when an object is at the address, it is the one taken,
        and the list loses it, exactly when it is not the first of the list. What is taken and what
        is left in every case is as in Slub. */
    method ExtractAsWritten(a: nat) returns (obj: Node?<Obj>)
      requires Valid() && a != 0
      modifies nodes
      ensures nodes == old(nodes) && first == old(first) && forall x :: x in nodes ==> x.val == old(x.val)
      ensures var i := Find(view, a);
              && (i < 0 ==> obj == null && Linked(first, nodes))
              && (i >= 0 ==> (obj == nodes[i] && Linked(first, Cut(nodes, i)) <==> i != 0))
              && (i >= 0 ==> obj == nodes[Taken(|nodes|, i)] && Linked(first, RestAsWritten(nodes, i)))
    {
      ghost var i := Find(view, a);
      var p := Parent(a);
      obj := Child(p, if i <= 0 then 0 else i - 1);
    }

    method ExtractFirst() returns (obj: ObjNode)
      requires Valid() && nodes != []
      modifies this, nodes
      ensures Valid() && nodes == Cut(old(nodes), 0) && view == Cut(old(view), 0)
      ensures obj == old(nodes)[0] && obj.next == null && obj.val == old(obj.val)
      ensures obj !in nodes && forall x :: x in nodes ==> x in old(nodes)
    {
      obj := first;
      assert |nodes| > 1 ==> obj.next == nodes[1];
      first := obj.next;
      obj.next := null;
      nodes, view := Cut(nodes, 0), Cut(view, 0);
    }

    method ExtractInner(a: nat) returns (obj: Node?<Obj>)
      requires Valid() && a != 0 && Find(view, a) != 0
      modifies this, nodes
      ensures Valid() && Extracted(obj, Find(old(view), a), old(nodes), old(view))
      ensures obj != null ==> obj.val == old(obj.val)
      ensures obj !in nodes && forall x :: x in nodes ==> x in old(nodes)
    {
      ghost var i := Find(view, a);
      var p := Parent(a);
      obj := Child(p, if i <= 0 then 0 else i - 1);
      if obj != null {
        CutMatches(nodes, view, i);
        nodes, view := Cut(nodes, i), Cut(view, i);
      }
    }

    /** What is left when object i of the chain s, of values v, has been taken, or none if i < 0. */
    ghost predicate Extracted(obj: Node?<Obj>, i: int, s: seq<ObjNode>, v: seq<Obj>)
      requires i < |s| == |v|
      reads this, obj
    {
      if i < 0 then obj == null && nodes == s && view == v
      else obj == s[i] && obj.next == null && nodes == Cut(s, i) && view == Cut(v, i)
    }

    /** kmem_extract_obj, repaired: the first object is unlinked by moving the list's start. */
    method Extract(a: nat) returns (obj: Node?<Obj>)
      requires Valid() && a != 0
      modifies this, nodes
      ensures Valid() && Extracted(obj, Find(old(view), a), old(nodes), old(view))
      ensures obj != null ==> obj.val == old(obj.val)
      ensures obj !in nodes && forall x :: x in nodes ==> x in old(nodes)
    {
      if first != null && first.val.addr == a {
        obj := ExtractFirst();
      } else {
        obj := ExtractInner(a);
      }
    }
  }

  ghost function NodeIndex(s: seq<ObjNode>, obj: ObjNode): (j: nat)
    requires obj in s
    ensures j < |s| && s[j] == obj && obj !in s[..j]
  {
    if s[0] == obj then 0 else 1 + NodeIndex(s[1..], obj)
  }

  lemma CutMatches(s: seq<ObjNode>, v: seq<Obj>, i: nat)
    requires |v| == |s| && i < |s| && forall j :: 0 <= j < |s| ==> v[j] == s[j].val
    requires forall j, k :: 0 <= j < k < |s| ==> s[j] != s[k]
    ensures forall j :: 0 <= j < |s| - 1 ==> Cut(v, i)[j] == Cut(s, i)[j].val
    ensures s[i] !in Cut(s, i) && forall x :: x in Cut(s, i) ==> x in s
  {
    forall x | x in Cut(s, i) ensures x in s && x != s[i] {
      var j :| 0 <= j < |s| - 1 && Cut(s, i)[j] == x;
      assert x == s[if j < i then j else j + 1];
    }
  }

  /** Once the node before it points past it, node i + 1 is out of the chain. */
  lemma CutLinked(first: Node?<Obj>, s: seq<ObjNode>, i: nat)
    requires 0 <= i < |s| - 1 && first == s[0]
    requires forall j :: 0 <= j < |s| && j != i && j != i + 1 ==> (s[j].next == null <==> j == |s| - 1)
    requires forall j :: 0 <= j < |s| - 1 && j != i && j != i + 1 ==> s[j].next == s[j + 1]
    requires s[i].next == if i + 2 < |s| then s[i + 2] else null
    requires forall j, k :: 0 <= j < k < |s| ==> s[j] != s[k]
    ensures Linked(first, Cut(s, i + 1))
  {
  }

  /** A request to a cache that has one object: it enters the task's list and stays in the cache's. */
  method HandOut(c: ObjList, t: ObjList) returns (x: Node?<Obj>)
    requires c.Valid() && |c.nodes| == 1 && t.Valid() && c != t && c.nodes[0] !in t.nodes
    modifies t, c.nodes, t.nodes
    ensures c.Valid() && t.Valid() && c.nodes == old(c.nodes) && c.first == old(c.first)
    ensures x == c.nodes[0] && t.nodes == old(t.nodes) + [x]
  {
    x := c.TakeLastAsWritten();
    t.Append(x);
    assert t.nodes[|t.nodes| - 1] == x;
  }

  /** After a second request the task has been given the same object twice, and its list ends in a
      cycle. */
  method HandOutTwice(c: ObjList, t: ObjList) returns (x: Node?<Obj>, y: Node?<Obj>)
    requires c.Valid() && |c.nodes| == 1 && t.Valid() && c != t && c.nodes[0] !in t.nodes
    modifies t, c.nodes, t.nodes
    ensures x == y == c.nodes[0] && x.next == x && c.first == x
    ensures t.nodes == old(t.nodes) + [x]
  {
    x := HandOut(c, t);
    y := c.TakeLastAsWritten();
    t.AddAgain(y);
  }
}
