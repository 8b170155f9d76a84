/** The two unlinking primitives of page_alloc.c exactly as the code has them, and when they do
    what their callers need: unlink one record and nothing else. PageAlloc uses the repaired forms. */
module BuddyAsWritten {
  import opened Dyadic
  import opened BuddyTiling
  import opened BuddyLists
  import opened Links
  import opened PageAlloc

  // ---------------------------------------------------------------- remove_page_block

  /** The list after remove_page_block on record i, and whether the call reports failure: the
      walk compares only successors with the record, so the head of a longer list is never found. */
  function RemoveResult(s: seq<Block>, i: nat): (seq<Block>, bool)
    requires i < |s|
  {
    if |s| == 1 || i > 0 then (Cut(s, i), false) else (s, true)
  }

  /** The one search loop of the code appears twice: RemoveInner when it finds pb behind another
      record, and below when it runs to the end. */
  method RemovePageBlock(list: FreeList, pb: PageBlock, ghost i: nat) returns (failed: bool)
    requires list.Valid() && i < |list.nodes| && pb == list.nodes[i]
    modifies list, list.nodes
    ensures list.Valid()
    ensures (list.view, failed) == RemoveResult(old(list.view), i)
  {
    if list.count == 1 {
      list.count := 0;
      list.first := null;
      list.nodes, list.view := [], [];
      return false;
    }
    if list.first != pb {
      list.RemoveInner(pb, i);
      return false;
    }
    var cb := list.first;
    ghost var j := 0;
    while cb != null
      invariant 0 <= j <= |list.nodes| && cb == (if j < |list.nodes| then list.nodes[j] else null)
      decreases |list.nodes| - j
    {
      assert j + 1 < |list.nodes| ==> cb.next == list.nodes[j + 1] && list.nodes[j + 1] != list.nodes[0];
      cb := cb.next;
      j := j + 1;
    }
    return true;
  }

  /** It unlinks the record exactly when the record is not the head of a longer list, and otherwise
      refuses and changes nothing. */
  lemma RemoveMeetsContract(s: seq<Block>, i: nat)
    requires i < |s|
    ensures RemoveResult(s, i) == (Cut(s, i), false) <==> i != 0 || |s| == 1
    ensures RemoveResult(s, i) == (s, true) <==> i == 0 && |s| > 1
  {
  }

  // ---------------------------------------------------------------- remove_next_free_block

  /** The chain and the count after remove_next_free_block, and whether it reports failure. Index
      0 of a longer list is never tried, and cutting the predecessor's link drops the whole rest
      of the chain while the count falls by one. */
  function RemoveNextFreeResult(s: seq<Block>): (seq<Block>, nat, bool) {
    var k := LastFree(s);
    if |s| <= 1 then (if k < 0 then (s, |s|, true) else ([], 0, false))
    else if k <= 0 then (s, |s|, true)
    else (s[..k], |s| - 1, false)
  }

  /** The loop of remove_next_free_block: it looks at successors only, down to index 1. */
  method LastFreeBehindHead(list: FreeList) returns (i: nat)
    requires list.Valid() && list.count > 1
    ensures i == if LastFree(list.view) < 0 then 0 else LastFree(list.view)
  {
    i := list.count - 1;
    while i > 0
      invariant 0 <= i < list.count
      invariant forall j :: i < j < list.count ==> list.view[j].used
    {
      var pb := list.Nth(i - 1);
      assert pb.next == list.nodes[i];
      if !pb.next.val.used { return; }
      i := i - 1;
    }
  }

  /** pb->next = 0 on the record in front of index i. */
  method CutBehind(list: FreeList, i: nat)
    requires list.Valid() && 0 < i < list.count
    modifies list, list.nodes
    ensures var chain := old(list.nodes)[..i]; Linked(list.first, chain) && Vals(chain) == old(list.view)[..i]
    ensures list.count == old(list.count) - 1
  {
    var pb := list.Nth(i - 1);
    pb.next := null;
    list.count := list.count - 1;
    ghost var chain := list.nodes[..i];
    assert Vals(chain) == list.view[..i];
  }

  method RemoveNextFreeBlock(list: FreeList) returns (failed: bool, ghost chain: seq<PageBlock>)
    requires list.Valid()
    modifies list, list.nodes
    ensures Linked(list.first, chain) && chain <= old(list.nodes)
    ensures (Vals(chain), list.count, failed) == RemoveNextFreeResult(old(list.view))
  {
    chain := list.nodes;
    assert Vals(chain) == list.view;
    if list.count <= 0 { return true, chain; }
    if list.count == 1 {
      if list.first.val.used { return true, chain; }
      list.count := 0;
      list.first := null;
      return false, [];
    }
    var i := LastFreeBehindHead(list);
    if i == 0 { return true, chain; }
    CutBehind(list, i);
    return false, chain[..i];
  }

  /** The last free record stands at the end of the list, or there is none, or only one record. */
  predicate LastFreeAtEnd(s: seq<Block>) {
    |s| <= 1 || LastFree(s) < 0 || LastFree(s) == |s| - 1
  }

  /** It unlinks the last free block, and fails only when there is none, exactly in that case. Otherwise
      the block is the head and it refuses, or everything from the block on is cut off. */
  lemma RemoveNextFreeMeetsContract(s: seq<Block>)
    ensures var k := LastFree(s);
            (if k < 0 then RemoveNextFreeResult(s) == (s, |s|, true)
             else RemoveNextFreeResult(s) == (Cut(s, k), |s| - 1, false))
            <==> LastFreeAtEnd(s)
    ensures !LastFreeAtEnd(s) ==>
              var k := LastFree(s);
              RemoveNextFreeResult(s) == if k == 0 then (s, |s|, true) else (s[..k], |s| - 1, false)
  {
    var k := LastFree(s);
    if 0 < k < |s| - 1 {
      assert |s[..k]| != |Cut(s, k)|;
    } else if 0 < k {
      assert s[..k] == Cut(s, k);
    }
  }

  // ---------------------------------------------------------------- what a split loses

  /** split_page_block with the chain the code leaves behind. */
  function SplitAsWritten(l: Lists, o: nat): (r: Lists)
    requires 0 < o < |l| && LastFree(l[o]) >= 0
    ensures |r| == |l|
  {
    var (chain, _, failed) := RemoveNextFreeResult(l[o]);
    var p := l[o][LastFree(l[o])].page;
    if failed then l
    else l[o := chain][o - 1 := l[o - 1] + [Block(p, o - 1, false), Block(Buddy(p, o - 1), o - 1, false)]]
  }

  /** The split as written is the contract's split exactly when the last free block is at the end. */
  lemma SplitMeetsContract(l: Lists, o: nat)
    requires 0 < o < |l| && LastFree(l[o]) >= 0
    ensures SplitAsWritten(l, o) == Split(l, o) <==> LastFreeAtEnd(l[o])
  {
    RemoveNextFreeMeetsContract(l[o]);
    var s, k := l[o], LastFree(l[o]);
    if k == 0 && |s| > 1 {
      assert |SplitAsWritten(l, o)[o - 1]| != |Split(l, o)[o - 1]|;
    } else if k < |s| - 1 {
      assert SplitAsWritten(l, o)[o] == s[..k] && Split(l, o)[o] == Cut(s, k);
    }
  }

  /** Otherwise every record behind the split block drops out of the lists with its memory: the
      addresses it covered belong to no block any more. */
  lemma SplitLosesSuffix(l: Lists, base: nat, n: nat, o: nat, q: nat)
    requires State(l, base, n) && 0 < o < |l| && 0 < LastFree(l[o]) < q < |l[o]|
    ensures !Covered(Blocks(SplitAsWritten(l, o)), l[o][q].page)
  {
    var m, k := SplitAsWritten(l, o), LastFree(l[o]);
    var b, x := l[o][k], l[o][q];
    assert b in Blocks(l) && x in Blocks(l) && b.Apart(x);
    Halves(b.page, o - 1);
    SizeDouble(o - 1);
    forall c | c in Blocks(m) ensures !c.Contains(x.page) {
      var p, j :| 0 <= p < |m| && 0 <= j < |m[p]| && m[p][j] == c;
      if p == o - 1 && j >= |l[p]| {
        assert b.page <= c.page && c.End() <= b.End();
      } else {
        KeptIsApart(l, base, n, o, q, p, j);
      }
    }
  }

  /** A record that such a split leaves in its place is apart from one behind the record it splits. */
  lemma KeptIsApart(l: Lists, base: nat, n: nat, o: nat, q: nat, p: nat, j: nat)
    requires State(l, base, n) && o < |l| && q < |l[o]| && p < |l| && j < |l[p]| && (p == o ==> j < q)
    ensures l[p][j].Apart(l[o][q])
  {
    assert l[p][j] in Blocks(l) && l[o][q] in Blocks(l) && l[p][j] != l[o][q];
  }

  // ---------------------------------------------------------------- page_alloc as written

  /** reduce_to_order with the splits as written; true when one of them failed. */
  function ReduceAsWritten(l: Lists, o: nat, target: nat): (r: (Lists, bool))
    requires target <= o < |l| && LastFree(l[o]) >= 0
    ensures |r.0| == |l| && (!r.1 ==> LastFree(r.0[target]) >= 0)
    ensures forall p :: o < p < |l| ==> r.0[p] == l[p]
    decreases o
  {
    if o == target then (l, false)
    else if RemoveNextFreeResult(l[o]).2 then (l, true)
    else ReduceAsWritten(SplitAsWritten(l, o), o - 1, target)
  }

  /** This describes the code in lists that nothing has been lost from. After a loss last_entry may name a
      lost record, and a count be larger than its chain is long, neither of which the lists show; the same
      goes for the page_free and the runs below. */
  function AllocAsWritten(l: Lists, pages: nat): (Lists, nat)
    requires |l| == MAX_PAGE_ORDER + 1
  {
    if pages == 0 || pages > MAX_PAGE_BLOCK then (l, 0) else
    var k := PageOrder(pages);
    var o := FirstOrder(l, k);
    if LastFree(l[o]) < 0 then (l, 0) else
    var (m, failed) := ReduceAsWritten(l, o, k);
    if failed then (m, 0) else
    var i := LastFree(m[k]);
    (SetFlag(m, k, i, true), m[k][i].page)
  }

  lemma {:induction false} ReduceLeavesAbove(l: Lists, o: nat, target: nat)
    requires target <= o < |l| && LastFree(l[o]) >= 0
    ensures forall p :: o < p < |l| ==> Reduce(l, o, target)[p] == l[p]
    decreases o
  {
    if o == target {
    } else {
      ReduceLeavesAbove(Split(l, o), o - 1, target);
    }
  }

  /** Only the first split can go wrong, since the others find the block just made at the end of
      its list. */
  lemma {:induction false} ReduceMeetsContract(l: Lists, o: nat, target: nat)
    requires target <= o < |l| && LastFree(l[o]) >= 0
    ensures ReduceAsWritten(l, o, target) == (Reduce(l, o, target), false) <==> o == target || LastFreeAtEnd(l[o])
    ensures o > target && !LastFreeAtEnd(l[o]) ==> ReduceAsWritten(l, o, target).0[o] != Reduce(l, o, target)[o]
    decreases o
  {
    if o == target {
    } else {
      var m := Split(l, o);
      SplitMeetsContract(l, o);
      ReduceLeavesAbove(m, o - 1, target);
      if LastFreeAtEnd(l[o]) {
        assert LastFreeAtEnd(m[o - 1]);
        ReduceMeetsContract(m, o - 1, target);
      } else {
        assert |m[o]| == |l[o]| - 1;
      }
    }
  }

  /** The request is refused anyway, or needs no split, or the list it splits first has its last free
      record at the end. */
  predicate AllocGuard(l: Lists, pages: nat)
    requires |l| == MAX_PAGE_ORDER + 1
  {
    pages == 0 || pages > MAX_PAGE_BLOCK ||
    var k := PageOrder(pages); var o := FirstOrder(l, k);
    LastFree(l[o]) < 0 || o == k || LastFreeAtEnd(l[o])
  }

  /** page_alloc as written computes what it should exactly under that guard. */
  lemma AllocMeetsContract(l: Lists, pages: nat)
    requires |l| == MAX_PAGE_ORDER + 1
    ensures AllocAsWritten(l, pages) == Alloc(l, pages) <==> AllocGuard(l, pages)
  {
    if 0 < pages <= MAX_PAGE_BLOCK {
      var k := PageOrder(pages);
      var o := FirstOrder(l, k);
      if LastFree(l[o]) >= 0 {
        ReduceMeetsContract(l, o, k);
        assert o > k && !LastFreeAtEnd(l[o]) ==> AllocAsWritten(l, pages).0[o] != Alloc(l, pages).0[o];
      }
    }
  }

  // ---------------------------------------------------------------- what a merge loses

  /** One level of merge_buddy with remove_page_block as written, for free buddies i and j. */
  function JoinAsWritten(l: Lists, o: nat, i: nat, j: nat): (r: Lists)
    requires o + 1 < |l| && i < |l[o]| && j < |l[o]| && i != j
    ensures |r| == |l|
  {
    var (s1, failed1) := RemoveResult(l[o], i);
    if failed1 then l else
    var (s2, failed2) := RemoveResult(s1, if j < i then j else j - 1);
    if failed2 then l[o := s1] else Join(l, o, i, j)
  }

  /** Neither removal is refused. */
  predicate Joins(s: seq<Block>, i: nat, j: nat) {
    i != 0 && (j != 0 || |s| == 2)
  }

  /** It joins the buddies exactly when the freed record is not the head, and the buddy is not the
      head of a list of more than two. */
  lemma JoinMeetsContract(l: Lists, o: nat, i: nat, j: nat)
    requires o + 1 < |l| && i < |l[o]| && j < |l[o]| && i != j
    ensures JoinAsWritten(l, o, i, j) == Join(l, o, i, j) <==> Joins(l[o], i, j)
  {
    assert |Join(l, o, i, j)[o + 1]| == |l[o + 1]| + 1;
  }

  /** Memory is lost exactly when the freed record is unlinked and its buddy, the head of a longer
      list, then is not: the freed block is in no list any more. */
  lemma JoinKeepsMemory(l: Lists, base: nat, n: nat, o: nat, i: nat, j: nat)
    requires State(l, base, n) && o + 1 < |l| && i < |l[o]| && j < |l[o]|
    requires FreeBuddies(l[o][i], l[o][j]) && Coalesced(Blocks(l) - {l[o][i]})
    ensures i != j
    ensures Tiled(Blocks(JoinAsWritten(l, o, i, j)), base, n) <==> !(i != 0 && j == 0 && |l[o]| > 2)
  {
    JoinKeepsState(l, base, n, o, i, j);
    var b := l[o][i];
    assert b in Blocks(l);
    if i != 0 && j == 0 && |l[o]| > 2 {
      CutBlocks(l, o, i);
      assert b.Contains(b.page);
      assert !Covered(Blocks(l) - {b}, b.page);
    }
  }

  // ---------------------------------------------------------------- page_free as written

  /** merge_buddy with the removals as written. */
  function MergeAsWritten(l: Lists, o: nat, i: nat): (r: Lists)
    requires o < |l| && i < |l[o]|
    ensures |r| == |l|
    decreases |l| - o
  {
    BuddyCases(l[o][i].page, o);
    var j := IndexOfPage(l[o], Buddy(l[o][i].page, o));
    if j < 0 || l[o][i].used || l[o][j].used || o + 1 >= |l| then l
    else if !Joins(l[o], i, j) then JoinAsWritten(l, o, i, j)
    else var m := Join(l, o, i, j); MergeAsWritten(m, o + 1, |m[o + 1]| - 1)
  }

  /** What the merge of a free block at p that joins list o finds in the lists as they were before:
      at no level is the block's free buddy the head of a list that has other records. */
  predicate BuddiesBehindHead(l: Lists, o: nat, p: nat)
    requires o < |l|
    decreases |l| - o
  {
    var q := Buddy(p, o);
    var j := IndexOfPage(l[o], q);
    j < 0 || l[o][j].used || o + 1 >= |l|
    || ((j != 0 || |l[o]| == 1) && BuddiesBehindHead(l, o + 1, if p > q then q else p))
  }

  /** The same for the record the merge starts at, which has its place in list o already. */
  predicate MergeGuard(l: Lists, o: nat, i: nat)
    requires o < |l| && i < |l[o]|
  {
    var p := l[o][i].page;
    var q := Buddy(p, o);
    var j := IndexOfPage(l[o], q);
    j < 0 || l[o][i].used || l[o][j].used || o + 1 >= |l|
    || (Joins(l[o], i, j) && BuddiesBehindHead(l, o + 1, if p > q then q else p))
  }

  lemma {:induction false} MergeLeavesBelow(l: Lists, o: nat, i: nat, p: nat)
    requires p < o < |l| && i < |l[o]|
    ensures Merge(l, o, i)[p] == l[p]
    decreases |l| - o
  {
    BuddyCases(l[o][i].page, o);
    var j := IndexOfPage(l[o], Buddy(l[o][i].page, o));
    if !(j < 0 || l[o][i].used || l[o][j].used || o + 1 >= |l|) {
      var m := Join(l, o, i, j);
      MergeLeavesBelow(m, o + 1, |m[o + 1]| - 1, p);
    }
  }

  lemma {:induction false} IndexInAppended(s: seq<Block>, b: Block, p: nat)
    requires b.page != p
    ensures IndexOfPage(s + [b], p) == IndexOfPage(s, p)
    decreases |s|
  {
    if s == [] {
      assert s + [b] == [b] && [b][1..] == [];
    } else {
      IndexInAppended(s[1..], b, p);
      assert (s + [b])[1..] == s[1..] + [b];
    }
  }

  /** Where two lists of blocks agree from order o up, so does the guard. */
  lemma {:induction false} GuardLooksUp(l: Lists, m: Lists, o: nat, p: nat)
    requires |m| == |l| && o < |l| && forall q :: o <= q < |l| ==> m[q] == l[q]
    ensures BuddiesBehindHead(m, o, p) == BuddiesBehindHead(l, o, p)
    decreases |l| - o
  {
    var q := Buddy(p, o);
    if o + 1 == |l| {
    } else {
      GuardLooksUp(l, m, o + 1, if p > q then q else p);
    }
  }

  /** A record at the end of its list meets the guard on the lists with it exactly when they meet it
      without. */
  lemma GuardAtEnd(l: Lists, m: Lists, o: nat, p: nat)
    requires o < |l| && m == l[o := l[o] + [Block(p, o, false)]]
    ensures MergeGuard(m, o, |l[o]|) <==> BuddiesBehindHead(l, o, p)
  {
    var b, q := Block(p, o, false), Buddy(p, o);
    BuddyCases(p, o);
    IndexInAppended(l[o], b, q);
    if o + 1 < |l| { GuardLooksUp(l, m, o + 1, if p > q then q else p); }
  }

  /** What one level of the merge does to the guard. */
  lemma GuardGoesUp(l: Lists, o: nat, i: nat)
    requires o + 1 < |l| && i < |l[o]| && Merges(l, o, i) && !l[o][i].used
    ensures var j := IndexOfPage(l[o], Buddy(l[o][i].page, o)); i != j
    ensures var j := IndexOfPage(l[o], Buddy(l[o][i].page, o)); var m := Join(l, o, i, j);
            MergeGuard(l, o, i) <==> Joins(l[o], i, j) && MergeGuard(m, o + 1, |m[o + 1]| - 1)
  {
    var p := l[o][i].page;
    var q := Buddy(p, o);
    BuddyCases(p, o);
    var j := IndexOfPage(l[o], q);
    var m := Join(l, o, i, j);
    var up := if p > q then q else p;
    GuardAtEnd(m[o + 1 := l[o + 1]], m, o + 1, up);
    GuardLooksUp(l, m[o + 1 := l[o + 1]], o + 1, up);
  }

  /** merge_buddy as written computes what it should exactly when no removal is refused: a condition
      on the lists before the call. */
  lemma {:induction false} MergeMeetsContract(l: Lists, o: nat, i: nat)
    requires o < |l| && i < |l[o]|
    ensures MergeAsWritten(l, o, i) == Merge(l, o, i) <==> MergeGuard(l, o, i)
    decreases |l| - o
  {
    if !l[o][i].used && o + 1 < |l| && Merges(l, o, i) {
      GuardGoesUp(l, o, i);
      MergeUnfolds(l, o, i);
      var j := IndexOfPage(l[o], Buddy(l[o][i].page, o));
      var m := Join(l, o, i, j);
      if Joins(l[o], i, j) {
        MergeMeetsContract(m, o + 1, |m[o + 1]| - 1);
      } else {
        RefusedDiffers(l, o, i, j);
      }
    }
  }

  lemma MergeUnfolds(l: Lists, o: nat, i: nat)
    requires o + 1 < |l| && i < |l[o]| && !l[o][i].used && Merges(l, o, i)
    ensures var j := IndexOfPage(l[o], Buddy(l[o][i].page, o)); i != j
    ensures var j := IndexOfPage(l[o], Buddy(l[o][i].page, o)); var m := Join(l, o, i, j);
            && Merge(l, o, i) == Merge(m, o + 1, |m[o + 1]| - 1)
            && MergeAsWritten(l, o, i) == if Joins(l[o], i, j) then MergeAsWritten(m, o + 1, |m[o + 1]| - 1)
                                          else JoinAsWritten(l, o, i, j)
  {
    BuddyCases(l[o][i].page, o);
  }

  lemma RefusedDiffers(l: Lists, o: nat, i: nat, j: nat)
    requires o + 1 < |l| && i < |l[o]| && j < |l[o]| && i != j && !Joins(l[o], i, j)
    ensures var m := Join(l, o, i, j); JoinAsWritten(l, o, i, j) != Merge(m, o + 1, |m[o + 1]| - 1)
  {
    var m := Join(l, o, i, j);
    MergeLeavesBelow(m, o + 1, |m[o + 1]| - 1, o);
    assert |m[o]| == |l[o]| - 2;
    assert |JoinAsWritten(l, o, i, j)[o]| > |m[o]|;
  }

  function FreeAsWritten(l: Lists, p: nat): Lists {
    var o := FindOrder(l, p, 0);
    if o == |l| then l else
    var i := IndexOfPage(l[o], p);
    MergeAsWritten(SetFlag(l, o, i, false), o, i)
  }

  predicate FreeGuard(l: Lists, p: nat) {
    var o := FindOrder(l, p, 0);
    o == |l| || var i := IndexOfPage(l[o], p); MergeGuard(SetFlag(l, o, i, false), o, i)
  }

  /** page_free as written computes what it should exactly when the merges it starts do. */
  lemma FreeMeetsContract(l: Lists, p: nat)
    ensures FreeAsWritten(l, p) == Free(l, p) <==> FreeGuard(l, p)
  {
    var o := FindOrder(l, p, 0);
    if o < |l| {
      var i := IndexOfPage(l[o], p);
      MergeMeetsContract(SetFlag(l, o, i, false), o, i);
    }
  }

  /** merge_buddy as written keeps all memory in the lists exactly when no removal is refused, or the
      one refused is that of the record it starts at. */
  lemma {:induction false} MergeKeepsMemory(l: Lists, base: nat, n: nat, o: nat, i: nat)
    requires MayMerge(l, base, n, o, i)
    ensures Tiled(Blocks(MergeAsWritten(l, o, i)), base, n) <==> MergeGuard(l, o, i) || i == 0
    decreases |l| - o
  {
    if Merges(l, o, i) {
      var m := MergeGoesOn(l, base, n, o, i);
      var j := IndexOfPage(l[o], Buddy(l[o][i].page, o));
      GuardGoesUp(l, o, i);
      if Joins(l[o], i, j) {
        MergeKeepsMemory(m, base, n, o + 1, |m[o + 1]| - 1);
        EmptyHasNoBuddy(m, base, n, o + 1);
      } else {
        assert l[o][i] in Blocks(l) && l[o][j] in Blocks(l);
        JoinKeepsMemory(l, base, n, o, i, j);
      }
    }
  }

  /** A block alone in its list has nothing to merge with. */
  lemma EmptyHasNoBuddy(m: Lists, base: nat, n: nat, o: nat)
    requires o < |m| && m[o] != [] && MayMerge(m, base, n, o, |m[o]| - 1)
    ensures |m[o]| == 1 ==> MergeGuard(m, o, 0)
  {
    BuddyCases(m[o][|m[o]| - 1].page, o);
  }

  /** page_free as written keeps all memory in the lists exactly when its merges are right, or the
      block freed is the head of its list. */
  lemma FreeKeepsMemory(l: Lists, base: nat, n: nat, p: nat)
    requires Settled(l, base, n)
    ensures Tiled(Blocks(FreeAsWritten(l, p)), base, n) <==>
              FreeGuard(l, p) || IndexOfPage(l[FindOrder(l, p, 0)], p) == 0
  {
    var o := FindOrder(l, p, 0);
    if o < |l| {
      var i := IndexOfPage(l[o], p);
      ClearFlag(l, base, n, o, i);
      MergeKeepsMemory(SetFlag(l, o, i, false), base, n, o, i);
    }
  }

  // ---------------------------------------------------------------- runs as written

  /** The code up to and including its first loss. */
  function StepAsWritten(l: Lists, op: Op): (r: Lists)
    requires |l| == MAX_PAGE_ORDER + 1
    ensures |r| == |l|
  {
    match op
    case PageAlloc(k) => AllocAsWritten(l, k).0
    case PageFree(p) => FreeAsWritten(l, p)
  }

  function RunAsWritten(l: Lists, ops: seq<Op>): (r: Lists)
    requires |l| == MAX_PAGE_ORDER + 1
    ensures |r| == |l|
    decreases |ops|
  {
    if ops == [] then l else RunAsWritten(StepAsWritten(l, ops[0]), ops[1..])
  }

  /** Every call of the run meets its guard when it is made. */
  predicate Guarded(l: Lists, ops: seq<Op>)
    requires |l| == MAX_PAGE_ORDER + 1
    decreases |ops|
  {
    if ops == [] then true else
    && (match ops[0] case PageAlloc(k) => AllocGuard(l, k) case PageFree(p) => FreeGuard(l, p))
    && Guarded(Step(l, ops[0]), ops[1..])
  }

  lemma {:induction false} GuardedAppend(l: Lists, xs: seq<Op>, ys: seq<Op>)
    requires |l| == MAX_PAGE_ORDER + 1
    ensures Guarded(l, xs + ys) <==> Guarded(l, xs) && Guarded(Run(l, xs), ys)
    decreases |xs|
  {
    if xs == [] {
      assert xs + ys == ys;
    } else {
      GuardedAppend(Step(l, xs[0]), xs[1..], ys);
      assert (xs + ys)[1..] == xs[1..] + ys;
    }
  }

  /** The theorems about runs hold of the code as it is wherever the guards do. */
  lemma {:induction false} GuardedRun(l: Lists, base: nat, n: nat, ops: seq<Op>)
    requires |l| == MAX_PAGE_ORDER + 1 && Guarded(l, ops)
    ensures RunAsWritten(l, ops) == Run(l, ops)
    ensures Settled(l, base, n) ==> Settled(RunAsWritten(l, ops), base, n)
    decreases |ops|
  {
    if ops == [] {
    } else {
      match ops[0] {
        case PageAlloc(k) => AllocMeetsContract(l, k);
        case PageFree(p) => FreeMeetsContract(l, p);
      }
      GuardedRun(Step(l, ops[0]), base, n, ops[1..]);
      if Settled(l, base, n) { RunSettled(l, base, n, ops); }
    }
  }
}
