/** Every core's caches and every task's list of used objects, in one heap. */
module Caches {
  import opened Folding
  import opened Links
  import opened Slub
  import opened SlubLists
  import opened BuddyLists

  /** l.Valid(), kept folded: a proof about l looks inside first. */
  ghost predicate Intact(l: ObjList)
    reads l, l.nodes
  {
    forall z {:trigger Look(z)} :: Look(z) && z == l ==> l.Valid()
  }

  /** A list none of whose objects changed is still the same list. */
  twostate lemma Undisturbed(l: ObjList)
    requires old(Intact(l)) && unchanged(l)
    requires forall x :: x in old(l.nodes) ==> x.val == old(x.val) && x.next == old(x.next)
    ensures Intact(l)
  {
    assert Look(l);
    assert forall i :: 0 <= i < |l.nodes| ==> l.nodes[i] in l.nodes;
  }

  class ObjLists {
    var lists: map<Place, ObjList>
    ghost var view: Slub.Lists
    ghost var Repr: set<object>
    ghost var place: map<object, Place>

    /** List p stands for its abstract value and shares nothing with another list: the list and each
        of its nodes is registered as being at p. */
    ghost predicate ListOk(p: Place)
      requires p in lists && p in view
      reads this, Repr
    {
      && lists[p] in Repr && lists[p] in place && place[lists[p]] == p
      && (forall x :: x in lists[p].nodes ==> x in Repr && x in place && place[x] == p)
      && Intact(lists[p]) && view[p] == lists[p].view
    }

    ghost predicate Valid()
      reads this, Repr
    {
      this in Repr && this !in place && lists.Keys == view.Keys && forall p :: p in lists ==> ListOk(p)
    }

    constructor ()
      ensures Valid() && fresh(Repr) && view == map[]
    {
      lists, view, Repr, place := map[], map[], {this}, map[];
    }

    method EnsureList(p: Place)
      requires Valid()
      modifies this
      ensures Valid() && fresh(Repr - old(Repr)) && old(Repr) <= Repr
      ensures view == old(view)[p := At(old(view), p)]
    {
      if p in lists { return; }
      var l := new ObjList();
      lists, view := lists[p := l], view[p := []];
      Repr, place := Repr + {l}, place[l := p];
      forall q | q in lists ensures ListOk(q) {
        if q != p { assert old(ListOk(q)); }
      }
    }

    /** List p is a list of its own objects, whatever its abstract value is said to be. */
    ghost predicate Registered(p: Place)
      requires p in lists
      reads this, Repr
    {
      && lists[p] in Repr && lists[p] in place && place[lists[p]] == p
      && (forall x :: x in lists[p].nodes ==> x in Repr && x in place && place[x] == p)
      && Intact(lists[p])
    }

    ghost predicate OthersOk(p: Place)
      reads this, Repr
    {
      && this in Repr && this !in place && lists.Keys == view.Keys
      && forall q :: q in lists && q != p ==> ListOk(q)
    }

    /** The bookkeeping after x has left list p. */
    ghost method Left(p: Place, x: ObjNode)
      requires p in lists && OthersOk(p) && Registered(p)
      requires x in place && place[x] == p && x !in lists[p].nodes
      modifies this`view, this`Repr
      ensures Valid() && view == old(view)[p := lists[p].view] && Repr == old(Repr) - {x}
    {
      view, Repr := view[p := lists[p].view], Repr - {x};
      assert ListOk(p);
      forall q | q in lists && q != p ensures ListOk(q) { assert old(ListOk(q)); }
    }

    /** The last object of a list, or null. */
    method LastOf(p: Place) returns (x: Node?<Obj>)
      requires Valid() && p in lists
      ensures var s := view[p]; if s == [] then x == null else x != null && x.val == s[|s| - 1]
    {
      assert ListOk(p) && Look(lists[p]);
      x := lists[p].first;
      if x != null { x := Tail(x, lists[p].nodes); }
    }

    /** The bookkeeping after x has joined list p. */
    ghost method Joined(p: Place, x: ObjNode)
      requires p in lists && OthersOk(p) && Intact(lists[p]) && x !in Repr
      requires lists[p] in Repr && lists[p] in place && place[lists[p]] == p
      requires forall y :: y in lists[p].nodes && y != x ==> y in Repr && y in place && place[y] == p
      modifies this`view, this`Repr, this`place
      ensures Valid() && view == old(view)[p := lists[p].view] && Repr == old(Repr) + {x}
    {
      view := view[p := lists[p].view];
      Repr, place := Repr + {x}, place[x := p];
      assert ListOk(p);
      forall q | q in lists && q != p ensures ListOk(q) { assert old(ListOk(q)); }
    }

    /** An object that is in no list goes to the end of one. */
    method AppendTo(p: Place, x: ObjNode)
      requires Valid() && p in lists && x !in Repr && x.next == null
      modifies Repr, x
      ensures Valid() && Repr == old(Repr) + {x} && x.val == old(x.val)
      ensures view == old(view)[p := old(view)[p] + [old(x.val)]]
    {
      assert ListOk(p) && Look(lists[p]);
      lists[p].Append(x);
      forall q | q in lists && q != p ensures ListOk(q) {
        assert old(ListOk(q));
        Undisturbed(lists[q]);
      }
      Joined(p, x);
    }

    /** x has been unlinked from list p, where it still counts as registered. */
    ghost predicate Unlinked(p: Place, x: ObjNode)
      requires p in lists
      reads this, Repr, x, lists[p]
    {
      x in Repr && x in place && place[x] == p && x !in lists[p].nodes && x.next == null
    }

    method UnlinkLast(p: Place) returns (x: Node?<Obj>)
      requires Valid() && p in lists
      modifies Repr
      ensures lists == old(lists) && view == old(view) && Repr == old(Repr) && OthersOk(p) && Registered(p)
      ensures view[p] == [] ==> x == null && lists[p].view == []
      ensures var s := view[p];
              s != [] ==> x != null && Unlinked(p, x) && x.val == s[|s| - 1] && lists[p].view == s[..|s| - 1]
    {
      assert ListOk(p) && Look(lists[p]);
      x := lists[p].TakeLast();
      forall q | q in lists && q != p ensures ListOk(q) {
        assert old(ListOk(q));
        Undisturbed(lists[q]);
      }
    }

    method Unlink(p: Place, a: nat) returns (x: Node?<Obj>)
      requires Valid() && p in lists && a != 0
      modifies Repr
      ensures lists == old(lists) && view == old(view) && Repr == old(Repr) && OthersOk(p) && Registered(p)
      ensures var i := Find(view[p], a);
              if i < 0 then x == null && lists[p].view == view[p]
              else x != null && Unlinked(p, x) && x.val == view[p][i] && lists[p].view == Cut(view[p], i)
    {
      assert ListOk(p) && Look(lists[p]);
      x := lists[p].Extract(a);
      forall q | q in lists && q != p ensures ListOk(q) {
        assert old(ListOk(q));
        Undisturbed(lists[q]);
      }
    }

    lemma StaysValid(p: Place)
      requires p in lists && OthersOk(p) && Registered(p) && lists[p].view == view[p]
      ensures Valid()
    {
      assert ListOk(p);
    }

    /** kmem_extract_obj_from_cache on one of the lists. */
    method TakeLastOf(p: Place) returns (x: Node?<Obj>)
      requires Valid() && p in lists
      modifies Repr
      ensures Valid()
      ensures old(view)[p] == [] ==> x == null && view == old(view) && Repr == old(Repr)
      ensures var s := old(view)[p];
              s != [] ==> && x != null && x in old(Repr) && Repr == old(Repr) - {x} && x.next == null
                          && x.val == s[|s| - 1] && view == old(view)[p := Cut(s, |s| - 1)]
    {
      x := UnlinkLast(p);
      if x == null {
        StaysValid(p);
      } else {
        assert view[p][..|view[p]| - 1] == Cut(view[p], |view[p]| - 1);
        Left(p, x);
      }
    }

    /** kmem_extract_obj on a task's list. */
    method ExtractFrom(p: Place, a: nat) returns (x: Node?<Obj>)
      requires Valid() && p in lists && a != 0
      modifies Repr
      ensures Valid()
      ensures var i := Find(old(view)[p], a);
              && (i < 0 ==> x == null && view == old(view) && Repr == old(Repr))
              && (i >= 0 ==> && x != null && x in old(Repr) && Repr == old(Repr) - {x} && x.next == null
                             && x.val == old(view)[p][i] && view == old(view)[p := Cut(old(view)[p], i)])
    {
      x := Unlink(p, a);
      if x == null {
        StaysValid(p);
      } else {
        Left(p, x);
      }
    }
  }
}
