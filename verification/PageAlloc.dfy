/** The buddy allocator of page_alloc.c over its linked lists. */
module PageAlloc {
  import opened Folding
  import opened Dyadic
  import opened BuddyTiling
  import opened BuddyLists
  import opened Links

  type PageBlock = Node<Block>

  /** struct free_list: the chain of one order and its length. */
  class FreeList {
    var first: Node?<Block>
    var count: nat
    ghost const order: nat
    ghost var nodes: seq<PageBlock>
    ghost var view: seq<Block>

    constructor (ghost order: nat)
      ensures Valid() && view == [] && this.order == order
    {
      first, count, nodes, view := null, 0, [], [];
      this.order := order;
    }

    /** The chain from first has exactly count records, all of this order. */
    ghost predicate Valid()
      reads this, nodes
    {
      && Linked(first, nodes) && count == |nodes| == |view|
      && forall i :: 0 <= i < |nodes| ==> view[i] == nodes[i].val && view[i].order == order
    }

    /** add_block_to_order */
    method Add(pb: PageBlock, order: nat)
      requires Valid() && pb !in nodes && pb.next == null && order == this.order
      modifies this, nodes, pb
      ensures Valid() && nodes == old(nodes) + [pb]
      ensures pb.val == old(pb.val).(order := order)
      ensures view == old(view) + [pb.val]
    {
      pb.val := pb.val.(order := order);
      if first == null {
        first := pb;
      } else {
        var cb := Tail(first, nodes);
        cb.next := pb;
      }
      count := count + 1;
      nodes := nodes + [pb];
      view := view + [pb.val];
    }

    /** get_nth_block */
    method Nth(index: nat) returns (pb: Node?<Block>)
      requires Valid()
      ensures if index < |nodes| then pb == nodes[index] else pb == null
    {
      if index >= count { return null; }
      pb := first;
      var i := index;
      while i > 0
        invariant 0 <= i <= index && pb == nodes[index - i]
      {
        pb := pb.next;
        i := i - 1;
      }
    }

    /** list_has_free_block */
    method HasFree() returns (r: bool)
      requires Valid()
      ensures r <==> LastFree(view) >= 0
    {
      var pb, i := first, 0;
      while i < count
        invariant 0 <= i <= count
        invariant pb == if i < |nodes| then nodes[i] else null
        invariant forall j :: 0 <= j < i ==> view[j].used
      {
        if pb == null { return false; }
        if !pb.val.used { return true; }
        pb := pb.next;
        i := i + 1;
      }
      return false;
    }

    /** find_pfn_in_order */
    method FindPfn(p: nat) returns (pb: Node?<Block>)
      requires Valid()
      ensures var i := IndexOfPage(view, p);
              if i < 0 then pb == null else pb == nodes[i]
    {
      pb := first;
      ghost var i := 0;
      while pb != null
        invariant 0 <= i <= |nodes|
        invariant pb == if i < |nodes| then nodes[i] else null
        invariant forall j :: 0 <= j < i ==> view[j].page != p
        decreases |nodes| - i
      {
        if pb.val.page == p { return; }
        pb := pb.next;
        i := i + 1;
      }
    }

    /** The backward scan of get_next_free_block and remove_next_free_block. */
    method LastFreeBlock() returns (pb: Node?<Block>)
      requires Valid()
      ensures var i := LastFree(view); if i < 0 then pb == null else pb == nodes[i]
    {
      var i := count;
      while i > 0
        invariant 0 <= i <= count
        invariant forall j :: i <= j < count ==> view[j].used
      {
        pb := Nth(i - 1);
        if !pb.val.used { return; }
        i := i - 1;
      }
      return null;
    }

    /** The branch of remove_page_block for a record that another one precedes. */
    method RemoveInner(pb: PageBlock, ghost i: nat)
      requires Valid() && 0 < i < |nodes| && nodes[i] == pb
      modifies this, nodes
      ensures Valid() && nodes == Cut(old(nodes), i) && view == Cut(old(view), i)
    {
      var cb := first;
      ghost var j := 0;
      while cb.next != pb
        invariant 0 <= j < i && cb == nodes[j]
        decreases i - j
      {
        cb := cb.next;
        j := j + 1;
      }
      assert nodes[j].next == nodes[j + 1] && j == i - 1;
      assert i + 1 < |nodes| ==> pb.next == nodes[i + 1];
      count := count - 1;
      cb.next := pb.next;
      pb.next := null;
      nodes, view := Cut(nodes, i), Cut(view, i);
      assert nodes[j] == cb;
    }

    /** remove_page_block, repaired: the code never compares pb with the head of a longer list,
        so here the head is tested first. */
    method Remove(pb: PageBlock, ghost i: nat)
      requires Valid() && i < |nodes| && nodes[i] == pb
      modifies this, nodes
      ensures Valid() && nodes == Cut(old(nodes), i) && view == Cut(old(view), i)
    {
      if first == pb {
        assert |nodes| > 1 ==> pb.next == nodes[1];
        first := pb.next;
        pb.next := null;
        count := count - 1;
        nodes, view := Cut(nodes, i), Cut(view, i);
      } else {
        RemoveInner(pb, i);
      }
    }
  }

  /** l.Valid(), kept folded: a proof about l looks inside first. */
  ghost predicate Intact(l: FreeList)
    reads l, l.nodes
  {
    forall z {:trigger Look(z)} :: Look(z) && z == l ==> l.Valid()
  }

  /** A list none of whose objects changed is still the same list. */
  twostate lemma Undisturbed(l: FreeList)
    requires old(Intact(l)) && unchanged(l)
    requires forall x :: x in old(l.nodes) ==> x.val == old(x.val) && x.next == old(x.next)
    ensures Intact(l)
  {
    assert Look(l);
    assert forall i :: 0 <= i < |l.nodes| ==> l.nodes[i] in l.nodes;
  }

  lemma {:induction false} ReduceFurther(l: Lists, o: nat, c: nat)
    requires 0 < c <= o < |l| && LastFree(l[o]) >= 0
    ensures Reduce(l, o, c - 1) == Split(Reduce(l, o, c), c)
    decreases o
  {
    if c == o {
    } else {
      ReduceFurther(Split(l, o), o - 1, c);
    }
  }

  lemma MergeIsDone(l: Lists, o: nat, i: nat, n: nat)
    requires StaysBelow(l, o, i, n) && o < |l| && i < |l[o]| && !Merges(l, o, i)
    ensures Merge(l, o, i) == l
  {
  }

  lemma MergeGoesUp(l: Lists, o: nat, i: nat, n: nat) returns (m: Lists, last: nat)
    requires StaysBelow(l, o, i, n) && o < |l| && i < |l[o]| && Merges(l, o, i)
    ensures var j := IndexOfPage(l[o], Buddy(l[o][i].page, o)); o < n && o + 1 < |l| && j != i && m == Join(l, o, i, j)
    ensures last == |m[o + 1]| - 1 && StaysBelow(m, o + 1, last, n) && Merge(l, o, i) == Merge(m, o + 1, last)
  {
    m := Join(l, o, i, IndexOfPage(l[o], Buddy(l[o][i].page, o)));
    last := |m[o + 1]| - 1;
  }

  lemma AllocRefused(l: Lists, pages: nat, k: nat)
    requires |l| == MAX_PAGE_ORDER + 1 && 0 < pages <= MAX_PAGE_BLOCK && k == PageOrder(pages)
    requires LastFree(l[FirstOrder(l, k)]) < 0
    ensures Alloc(l, pages) == (l, 0)
  {
  }

  lemma AllocTakes(l: Lists, pages: nat, k: nat, m: Lists)
    requires |l| == MAX_PAGE_ORDER + 1 && 0 < pages <= MAX_PAGE_BLOCK && k == PageOrder(pages)
    requires var o := FirstOrder(l, k); LastFree(l[o]) >= 0 && m == Reduce(l, o, k)
    ensures Alloc(l, pages) == (SetFlag(m, k, LastFree(m[k]), true), m[k][LastFree(m[k])].page)
  {
  }

  /** struct free_list_header and the functions over it. */
  class Allocator {
    const list: seq<FreeList>
    var lastEntry: Node?<Block>
    ghost var view: Lists
    ghost var Repr: set<object>

    /** One list per order, each over its own records. */
    ghost predicate Separate()
      reads this, Repr
    {
      && this in Repr && |view| == |list| == MAX_PAGE_ORDER + 1
      && forall o :: 0 <= o < |list| ==> ListOk(o)
    }

    ghost predicate ListOk(o: nat)
      requires o < |list| && o < |view|
      reads this, Repr
    {
      && list[o] in Repr && (forall x :: x in list[o].nodes ==> x in Repr)
      && list[o].order == o && Intact(list[o]) && view[o] == list[o].view && |list[o].view| == |list[o].nodes|
      && forall i :: 0 <= i < |list[o].nodes| ==> list[o].view[i] == list[o].nodes[i].val && list[o].view[i].order == o
    }

    /** Between calls the last record created also stands at the end of its order's list. */
    ghost predicate Valid()
      reads this, Repr
    {
      && Separate()
      && lastEntry != null && lastEntry in Repr
      && var o := lastEntry.val.order;
         o < |list| && ListOk(o) && |list[o].nodes| > 0 && lastEntry == list[o].nodes[|list[o].nodes| - 1]
    }

    /** init_free_list for a range of exactly one block of order n. */
    constructor (base: nat, n: nat)
      requires 0 < base && n < MAX_PAGE_ORDER && Aligned(base, n)
      ensures Valid() && fresh(Repr)
      ensures view == Initial(base, n)
    {
      var ls := Allocator.EmptyLists();
      list := ls;
      lastEntry := null;
      Repr := {this} + set o | 0 <= o < |ls| :: ls[o];
      view := seq(MAX_PAGE_ORDER + 1, o => []);
      new;
      var pb := AddFreeBlock(base, n);
      assert pb.val == Whole(base, n);
      forall o | 0 <= o < |view| ensures view[o] == Initial(base, n)[o] {}
    }

    static method EmptyLists() returns (ls: seq<FreeList>)
      ensures |ls| == MAX_PAGE_ORDER + 1 && fresh(ls)
      ensures forall o :: 0 <= o < |ls| ==> ls[o].Valid() && ls[o].view == [] && ls[o].order == o
    {
      ls := [];
      while |ls| < MAX_PAGE_ORDER + 1
        invariant |ls| <= MAX_PAGE_ORDER + 1 && fresh(ls)
        invariant forall o :: 0 <= o < |ls| ==> ls[o].Valid() && ls[o].view == [] && ls[o].order == o
      {
        var l := new FreeList(|ls|);
        ls := ls + [l];
      }
    }

    /** new_page_block: records come from a bump pointer and are never handed out twice. */
    method NewPageBlock(page: nat) returns (pb: PageBlock)
      requires Separate()
      modifies this
      ensures fresh(pb) && lastEntry == pb && pb.next == null && Repr == old(Repr)
      ensures pb.val.page == page && !pb.val.used
      ensures Separate() && view == old(view)
    {
      pb := new Node(Block(page, 0, false));
      lastEntry := pb;
      forall o | 0 <= o < |list| ensures ListOk(o) { assert old(ListOk(o)); }
    }

    method AddBlockToOrder(pb: PageBlock, order: nat)
      requires Separate() && order < |list| && pb !in Repr && pb.next == null
      modifies Repr, pb
      ensures Separate() && Repr == old(Repr) + {pb} && lastEntry == old(lastEntry)
      ensures pb.val == old(pb.val).(order := order)
      ensures list[order].nodes == old(list[order].nodes) + [pb]
      ensures view == old(view)[order := old(view)[order] + [pb.val]]
    {
      assert ListOk(order) && Look(list[order]);
      list[order].Add(pb, order);
      Repr := Repr + {pb};
      view := view[order := view[order] + [pb.val]];
      forall o | 0 <= o < |list| && o != order ensures ListOk(o) {
        assert old(ListOk(o)) && old(ListOk(order));
        Undisturbed(list[o]);
      }
    }

    /** new_page_block followed by add_block_to_order. */
    method AddFreeBlock(page: nat, order: nat) returns (pb: PageBlock)
      requires Separate() && order < |list|
      modifies Repr
      ensures Valid() && fresh(Repr - old(Repr)) && pb.val == Block(page, order, false)
      ensures |list[order].nodes| > 0 && pb == list[order].nodes[|list[order].nodes| - 1]
      ensures view == old(view)[order := old(view)[order] + [pb.val]]
    {
      pb := NewPageBlock(page);
      AddBlockToOrder(pb, order);
    }

    method RemovePageBlock(pb: PageBlock, ghost order: nat, ghost i: nat)
      requires Separate() && order < |list| && ListOk(order) && i < |list[order].nodes| && pb == list[order].nodes[i]
      modifies Repr
      ensures Separate() && Repr == old(Repr)
      ensures view == old(view)[order := Cut(old(view)[order], i)]
      ensures list[order].nodes == Cut(old(list[order].nodes), i)
    {
      assert Look(list[order]);
      list[pb.val.order].Remove(pb, i);
      view := view[order := Cut(view[order], i)];
      forall o | 0 <= o < |list| && o != order ensures ListOk(o) {
        assert old(ListOk(o)) && old(ListOk(order));
        Undisturbed(list[o]);
      }
    }

    /** remove_next_free_block, repaired: it unlinks the last free block wherever it stands; the
        code leaves out index 0 and cuts off everything behind the block. */
    method RemoveNextFreeBlock(order: nat) returns (failed: bool)
      requires Valid() && order < |list|
      modifies Repr
      ensures Separate() && Repr == old(Repr)
      ensures failed <==> LastFree(old(view)[order]) < 0
      ensures failed ==> Valid() && view == old(view)
      ensures !failed ==> view == old(view)[order := Cut(old(view)[order], LastFree(old(view)[order]))]
    {
      assert ListOk(order);
      assert Look(list[order]);
      var pb := list[order].LastFreeBlock();
      failed := pb == null;
      if !failed { RemovePageBlock(pb, order, LastFree(view[order])); }
    }

    /** mark_block_used and mark_block_free */
    method MarkBlock(pb: PageBlock, used: bool, ghost order: nat, ghost i: nat)
      requires Valid() && order < |list| && ListOk(order) && i < |list[order].nodes| && pb == list[order].nodes[i]
      modifies Repr
      ensures Valid() && Repr == old(Repr) && view == SetFlag(old(view), order, i, used)
      ensures pb.val == old(pb.val).(used := used) && list[order].nodes == old(list[order].nodes)
    {
      assert Look(list[order]);
      pb.val := pb.val.(used := used);
      list[order].view := list[order].view[i := pb.val];
      view := view[order := view[order][i := pb.val]];
      forall o | 0 <= o < |list| && o != order ensures ListOk(o) {
        assert old(ListOk(o)) && old(ListOk(order));
        Undisturbed(list[o]);
      }
    }

    /** get_next_free_block: the shortcut through last_entry finds what the backward scan would. */
    method NextFreeBlock(order: nat) returns (pb: Node?<Block>)
      requires Valid() && order < |list|
      ensures var i := LastFree(view[order]);
              if i < 0 then pb == null else IsLastFree(pb, order)
    {
      assert ListOk(order);
      pb := lastEntry;
      if pb.val.order == order && !pb.val.used {
        return;
      }
      assert Look(list[order]);
      pb := list[order].LastFreeBlock();
    }

    /** The two halves enter the list below: the lower one, then the buddy its address gives. */
    method AddHalves(page: nat, order: nat)
      requires Separate() && order < |list|
      modifies Repr
      ensures Valid() && fresh(Repr - old(Repr))
      ensures view == old(view)[order := old(view)[order] +
                        [Block(page, order, false), Block(Buddy(page, order), order, false)]]
    {
      var lo := AddFreeBlock(page, order);
      ghost var lb := lo.val;
      var hi := AddFreeBlock(Buddy(lo.val.page, lo.val.order), order);
      assert view[order] == old(view)[order] + [lb, hi.val];
    }

    /** split_page_block */
    method SplitPageBlock(order: nat) returns (failed: bool)
      requires Valid() && 0 < order < |list|
      modifies Repr
      ensures Valid() && fresh(Repr - old(Repr))
      ensures failed <==> LastFree(old(view)[order]) < 0
      ensures view == if failed then old(view) else Split(old(view), order)
    {
      var pb := NextFreeBlock(order);
      var baseAddr := if pb != null then pb.val.page else 0;
      failed := RemoveNextFreeBlock(order);
      if !failed { AddHalves(baseAddr, order - 1); }
    }

    /** The loop of reduce_to_order: keep splitting the last free block. */
    method SplitDown(order: nat, target: nat) returns (failed: bool)
      requires Valid() && target <= order < |list|
      modifies Repr
      ensures Valid() && fresh(Repr - old(Repr))
      ensures failed <==> LastFree(old(view)[order]) < 0 && target < order
      ensures view == if LastFree(old(view)[order]) < 0 then old(view) else Reduce(old(view), order, target)
    {
      var curr := order;
      ghost var l, any := view, LastFree(view[order]) >= 0;
      while curr > target
        invariant target <= curr <= order && Valid() && fresh(Repr - old(Repr))
        invariant !any ==> curr == order && view == l
        invariant any ==> view == Reduce(l, order, curr)
      {
        failed := SplitPageBlock(curr);
        if failed { return true; }
        assert any;
        ReduceFurther(l, order, curr);
        curr := curr - 1;
      }
      failed := false;
    }

    /** reduce_to_order */
    method ReduceToOrder(order: nat, target: nat) returns (pb: Node?<Block>)
      requires Valid() && target <= order < |list|
      modifies Repr
      ensures Valid() && fresh(Repr - old(Repr))
      ensures if LastFree(old(view)[order]) < 0 then pb == null && view == old(view)
              else view == Reduce(old(view), order, target) && IsLastFree(pb, target)
    {
      var failed := SplitDown(order, target);
      if failed { return null; }
      pb := NextFreeBlock(target);
    }

    /** pb is the record of the last free block of the order. */
    ghost predicate IsLastFree(pb: Node?<Block>, order: nat)
      requires Separate()
      reads this, Repr
    {
      && order < |view| && ListOk(order) && 0 <= LastFree(view[order]) < |list[order].nodes|
      && pb == list[order].nodes[LastFree(view[order])]
    }

    /** The search of get_block for the closest order with a free block. */
    method ClosestOrder(order: nat) returns (curr: nat)
      requires Valid() && order <= MAX_PAGE_ORDER
      ensures curr == FirstOrder(view, order)
    {
      curr := order;
      while curr < MAX_PAGE_ORDER
        invariant order <= curr <= MAX_PAGE_ORDER
        invariant FirstOrder(view, curr) == FirstOrder(view, order)
      {
        assert ListOk(curr) && Look(list[curr]);
        var free := list[curr].HasFree();
        if free { break; }
        curr := curr + 1;
      }
    }

    /** get_block. The code's own test after the search, curr_order > MAX_PAGE_ORDER, never holds;
        an unsuccessful search is caught by the split of the empty top list. */
    method GetBlock(order: nat) returns (pb: Node?<Block>)
      requires Valid() && order <= MAX_PAGE_ORDER
      modifies Repr
      ensures Valid() && fresh(Repr - old(Repr))
      ensures var o := FirstOrder(old(view), order);
              if LastFree(old(view)[o]) < 0 then pb == null && view == old(view)
              else view == Reduce(old(view), o, order) && IsLastFree(pb, order)
    {
      var curr := ClosestOrder(order);
      pb := ReduceToOrder(curr, order);
    }

    /** get_page_order */
    method GetPageOrder(pages: nat) returns (k: nat)
      requires pages <= MAX_PAGE_BLOCK
      ensures k == PageOrder(pages)
    {
      MaxPageBlock();
      k := 0;
      while pages > Pow2(k)
        invariant k <= MAX_PAGE_ORDER && forall j :: 0 <= j < k ==> Pow2(j) < pages
        decreases MAX_PAGE_ORDER - k
      {
        assert k != MAX_PAGE_ORDER;
        k := k + 1;
      }
      assert !(k < PageOrder(pages)) && !(PageOrder(pages) < k);
    }

    /** page_alloc */
    method PageAlloc(pages: nat) returns (addr: nat)
      requires Valid()
      modifies Repr
      ensures Valid() && fresh(Repr - old(Repr))
      ensures (view, addr) == Alloc(old(view), pages)
    {
      if pages == 0 { return 0; }
      if pages > MAX_PAGE_BLOCK { return 0; }
      ghost var l := view;
      var order := GetPageOrder(pages);
      var pb := GetBlock(order);
      if pb == null {
        AllocRefused(l, pages, order);
        return 0;
      }
      AllocTakes(l, pages, order, view);
      MarkBlock(pb, true, order, LastFree(view[order]));
      return pb.val.page;
    }

    /** The middle of merge_buddy: both records leave their list and their union enters the next. */
    method JoinBuddies(pb: PageBlock, buddy: PageBlock, ghost o: nat, ghost i: nat, ghost j: nat)
      returns (joined: PageBlock)
      requires Valid() && o + 1 < |list| && ListOk(o) && i != j
      requires i < |list[o].nodes| && pb == list[o].nodes[i] && j < |list[o].nodes| && buddy == list[o].nodes[j]
      modifies Repr
      ensures Valid() && fresh(Repr - old(Repr)) && view == Join(old(view), o, i, j)
      ensures ListOk(o + 1) && |list[o + 1].nodes| > 0 && joined == list[o + 1].nodes[|list[o + 1].nodes| - 1]
    {
      var order := pb.val.order;
      var finalPfn := if pb.val.page > buddy.val.page then buddy.val.page else pb.val.page;
      RemovePageBlock(pb, o, i);
      RemovePageBlock(buddy, o, if j < i then j else j - 1);
      joined := AddFreeBlock(finalPfn, order + 1);
    }

    /** merge_buddy */
    method MergeBuddy(pb: PageBlock, ghost o: nat, ghost i: nat, ghost n: nat)
      requires Valid() && o < |list| && ListOk(o) && i < |list[o].nodes| && pb == list[o].nodes[i]
      requires StaysBelow(view, o, i, n)
      modifies Repr
      ensures Valid() && fresh(Repr - old(Repr)) && view == Merge(old(view), o, i)
      decreases n - o
    {
      var buddy := FindBuddy(pb, o, i);
      if buddy == null || pb.val.used || buddy.val.used {
        MergeIsDone(view, o, i, n);
        return;
      }
      ghost var j := IndexOfPage(view[o], Buddy(pb.val.page, o));
      ghost var m, last := MergeGoesUp(view, o, i, n);
      var joined := JoinBuddies(pb, buddy, o, i, j);
      MergeBuddy(joined, o + 1, last, n);
    }

    /** get_block_buddy */
    method FindBuddy(pb: PageBlock, ghost o: nat, ghost i: nat) returns (buddy: Node?<Block>)
      requires Valid() && o < |list| && ListOk(o) && i < |list[o].nodes| && pb == list[o].nodes[i]
      ensures pb.val == view[o][i]
      ensures var j := IndexOfPage(view[o], Buddy(pb.val.page, o));
              if j < 0 then buddy == null
              else j < |list[o].nodes| && buddy == list[o].nodes[j] && buddy.val == view[o][j]
    {
      assert Look(list[o]);
      buddy := list[pb.val.order].FindPfn(Buddy(pb.val.page, pb.val.order));
    }

    /** find_block_by_pfn: from the lowest order up. */
    method FindBlockByPfn(p: nat) returns (pb: Node?<Block>)
      requires Valid()
      ensures var o := FindOrder(view, p, 0);
              if o == |view| then pb == null
              else ListOk(o) && var i := IndexOfPage(view[o], p); i < |list[o].nodes| && pb == list[o].nodes[i]
    {
      pb := null;
      var order := 0;
      while order <= MAX_PAGE_ORDER
        invariant order <= |list| && FindOrder(view, p, order) == FindOrder(view, p, 0) && pb == null
      {
        assert ListOk(order) && Look(list[order]);
        pb := list[order].FindPfn(p);
        if pb != null { return; }
        order := order + 1;
      }
    }

    /** page_free */
    method PageFree(p: nat, ghost base: nat, ghost n: nat)
      requires Valid() && Settled(view, base, n)
      modifies Repr
      ensures Valid() && fresh(Repr - old(Repr)) && view == Free(old(view), p)
    {
      var pb := FindBlockByPfn(p);
      if pb == null { return; }
      ghost var l, o := view, FindOrder(view, p, 0);
      ghost var i := IndexOfPage(view[o], p);
      MarkBlock(pb, false, o, i);
      ClearFlag(l, base, n, o, i);
      MergeStaysBelow(view, base, n, o, i);
      MergeBuddy(pb, o, i, n);
    }
  }
}
