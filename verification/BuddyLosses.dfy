/** Runs of the page allocator as it is written that refuse, drop or lose memory, from one aligned
    block of any order. */
module BuddyLosses {
  import opened Folding
  import opened Dyadic
  import opened BuddyTiling
  import opened BuddyLists
  import opened BuddyAsWritten

  // ---------------------------------------------------------------- single steps

  /** A request for blocks of order k. */
  predicate Asks(pages: nat, k: nat) {
    0 < pages <= MAX_PAGE_BLOCK && PageOrder(pages) == k
  }

  lemma SmallRequests()
    ensures Asks(1, 0) && Asks(2, 1)
  {
    assert Pow2(0) == 1 && Pow2(1) == 2;
    assert MAX_PAGE_BLOCK == 2048;
  }

  /** The two halves that a split of the block at p makes, by the use of the upper one. */
  function Pair(p: nat, k: nat, used: bool): (s: seq<Block>)
    ensures |s| == 2
  {
    [Block(p, k, false), Block(Buddy(p, k), k, used)]
  }

  /** Between the target order t and order o every list has one free block, below t none has any. */
  ghost predicate Ladder(l: Lists, t: nat, o: nat) {
    && t <= o < |l|
    && (forall m :: 0 <= m < t ==> l[m] == [])
    && (forall m :: t < m < o ==> |l[m]| == 1 && !l[m][0].used)
  }

  /** The split of the last of one or two free blocks, and what is left to do. */
  lemma ReduceLast(l: Lists, o: nat, t: nat, rest: seq<Block>, b: Block) returns (m: Lists)
    requires t < o < |l| && l[o] == rest + [b] && !b.used && |rest| <= 1
    ensures LastFree(l[o]) >= 0
    ensures m == l[o := rest][o - 1 := l[o - 1] + Pair(b.page, o - 1, false)]
    ensures LastFree(m[o - 1]) == |l[o - 1]| + 1
    ensures ReduceAsWritten(l, o, t) == ReduceAsWritten(m, o - 1, t)
  {
    var s := l[o];
    assert s[..|rest|] == rest && LastFree(s) == |rest| && s[|rest|] == b;
    assert rest == [] ==> s == [b];
    m := SplitAsWritten(l, o);
    assert m[o - 1] == l[o - 1] + Pair(b.page, o - 1, false);
    assert LastFree(m[o - 1]) == |m[o - 1]| - 1;
  }

  /** The split of the last free block over empty lists. */
  lemma ReduceOverEmpty(l: Lists, o: nat, t: nat, rest: seq<Block>, b: Block) returns (m: Lists, lo: Block, hi: Block)
    requires t < o < |l| && l[o] == rest + [b] && !b.used && |rest| <= 1 && forall m :: 0 <= m < o ==> l[m] == []
    ensures LastFree(l[o]) >= 0 && |m| == |l| && m[o] == rest && forall q :: 0 <= q < o - 1 ==> m[q] == []
    ensures m[o - 1] == [lo] + [hi] == Pair(b.page, o - 1, false) && !lo.used && !hi.used && LastFree(m[o - 1]) >= 0
    ensures ReduceAsWritten(l, o, t) == ReduceAsWritten(m, o - 1, t)
  {
    m := ReduceLast(l, o, t, rest, b);
    var h := Pair(b.page, o - 1, false);
    lo, hi := h[0], h[1];
    assert h == [lo] + [hi] && [] + h == h;
  }

  /** Splitting down from one or two free blocks leaves a ladder of free halves. */
  lemma {:induction false} ReduceLadder(l: Lists, t: nat, o: nat, rest: seq<Block>, b: Block) returns (r: Lists, p: nat)
    requires t < o < |l| && l[o] == rest + [b] && !b.used && |rest| <= 1 && forall m :: 0 <= m < o ==> l[m] == []
    ensures LastFree(l[o]) >= 0 && ReduceAsWritten(l, o, t) == (r, false)
    ensures |r| == |l| && Ladder(r, t, o) && r[t] == Pair(p, t, false) && r[o] == rest
    decreases o
  {
    var m, lo, hi := ReduceOverEmpty(l, o, t, rest, b);
    if o - 1 == t {
      ReduceDone(m, t);
      r, p := m, b.page;
    } else {
      r, p := ReduceLadder(m, t, o - 1, [lo], hi);
      ReduceLeaves(m, o - 1, t);
      LadderUp(r, t, o, lo);
    }
  }

  lemma LadderUp(r: Lists, t: nat, o: nat, b: Block)
    requires t < o - 1 && o < |r| && Ladder(r, t, o - 1) && r[o - 1] == [b] && !b.used
    ensures Ladder(r, t, o)
  {
  }

  lemma ReduceLeaves(l: Lists, o: nat, t: nat)
    requires t <= o < |l| && LastFree(l[o]) >= 0
    ensures forall m :: o < m < |l| ==> ReduceAsWritten(l, o, t).0[m] == l[m]
  {
  }

  lemma {:induction false} SearchStops(l: Lists, k: nat, o: nat)
    requires |l| == MAX_PAGE_ORDER + 1 && k <= o < MAX_PAGE_ORDER && LastFree(l[o]) >= 0
    requires forall m :: k <= m < o ==> LastFree(l[m]) < 0
    ensures FirstOrder(l, k) == o
    decreases o - k
  {
    if k == o {
    } else {
      SearchStops(l, k + 1, o);
    }
  }

  /** A request whose search stops at order o and whose splits lead to r. */
  lemma RequestLeads(l: Lists, k: nat, pages: nat, o: nat, r: Lists)
    requires |l| == MAX_PAGE_ORDER + 1 && Asks(pages, k) && k <= o < MAX_PAGE_ORDER
    requires FirstOrder(l, k) == o && LastFree(l[o]) >= 0 && ReduceAsWritten(l, o, k) == (r, false)
    ensures |r| == |l| && LastFree(r[k]) >= 0
    ensures AllocAsWritten(l, pages).0 == SetFlag(r, k, LastFree(r[k]), true)
    ensures o == k || LastFreeAtEnd(l[o]) ==> AllocGuard(l, pages)
  {
  }

  /** A request whose first split fails. */
  lemma RequestRefused(l: Lists, k: nat, pages: nat, o: nat)
    requires |l| == MAX_PAGE_ORDER + 1 && Asks(pages, k) && k <= o < MAX_PAGE_ORDER
    requires FirstOrder(l, k) == o && LastFree(l[o]) >= 0 && ReduceAsWritten(l, o, k) == (l, true)
    ensures AllocAsWritten(l, pages) == (l, 0)
  {
  }

  // ---------------------------------------------------------------- requests

  /** The allocator's invariant, folded. */
  ghost predicate Calm(l: Lists, base: nat, n: nat) {
    |l| == MAX_PAGE_ORDER + 1 && forall z {:trigger Look(z)} :: Look(z) && z == l ==> Settled(l, base, n)
  }

  /** m is what page_alloc as written makes of l, folded. */
  ghost predicate Gives(l: Lists, pages: nat, m: Lists) {
    |l| == |m| == MAX_PAGE_ORDER + 1 && forall z {:trigger Look(z)} :: Look(z) && z == (l, m) ==> AllocAsWritten(l, pages).0 == m
  }

  /** Where the guard is met, the invariant is kept. */
  lemma GuardedGives(l: Lists, pages: nat, base: nat, n: nat) returns (m: Lists)
    requires Calm(l, base, n) && AllocGuard(l, pages)
    ensures m == AllocAsWritten(l, pages).0 && Gives(l, pages, m) && Calm(m, base, n)
  {
    assert Look(l);
    m := AllocAsWritten(l, pages).0;
    AllocMeetsContract(l, pages);
    AllocCorrect(l, base, n, pages);
  }

  /** The list of order k and the one above it after the first request, for blocks of order k. */
  lemma FirstRequest(base: nat, n: nat, k: nat, pages: nat) returns (m: Lists, p: nat)
    requires k < n < MAX_PAGE_ORDER && Asks(pages, k)
    ensures Gives(Initial(base, n), pages, m) && AllocGuard(Initial(base, n), pages)
    ensures m[k] == Pair(p, k, true) && Ladder(m, k, n)
  {
    var l, w := Initial(base, n), Whole(base, n);
    assert l[n] == [] + [w];
    var r;
    r, p := ReduceLadder(l, k, n, [], w);
    SearchStops(l, k, n);
    RequestLeads(l, k, pages, n, r);
    LastOfPair(r[k], [], p, k);
    m := SetFlag(r, k, 1, true);
  }

  lemma LastOfPair(s: seq<Block>, rest: seq<Block>, p: nat, k: nat)
    requires s == rest + Pair(p, k, false)
    ensures LastFree(s) == |rest| + 1
    ensures s[|rest| + 1 := s[|rest| + 1].(used := true)] == rest + Pair(p, k, true)
  {
  }

  /** A request that finds a free block of its order splits nothing. */
  lemma RequestInPlace(l: Lists, k: nat, pages: nat, i: nat) returns (m: Lists)
    requires |l| == MAX_PAGE_ORDER + 1 && k < MAX_PAGE_ORDER && Asks(pages, k) && LastFree(l[k]) == i
    ensures Gives(l, pages, m) && AllocGuard(l, pages)
    ensures m == l[k := l[k][i := l[k][i].(used := true)]]
  {
    SearchStops(l, k, k);
    RequestLeads(l, k, pages, k, l);
    m := SetFlag(l, k, i, true);
  }

  /** A request that finds a single free block one order up splits that. */
  lemma RequestAbove(l: Lists, k: nat, pages: nat, z: Block) returns (m: Lists)
    requires |l| == MAX_PAGE_ORDER + 1 && k + 1 < MAX_PAGE_ORDER && Asks(pages, k)
    requires LastFree(l[k]) < 0 && l[k + 1] == [z] && !z.used
    ensures Gives(l, pages, m) && AllocGuard(l, pages)
    ensures m == l[k + 1 := []][k := l[k] + Pair(z.page, k, true)]
  {
    assert [z] == [] + [z];
    var r := ReduceLast(l, k + 1, k, [], z);
    ReduceDone(r, k);
    LastOfPair(r[k], l[k], z.page, k);
    SearchStops(l, k, k + 1);
    RequestLeads(l, k, pages, k + 1, r);
    m := FlagLast(l, k, z.page, r);
  }

  lemma ReduceDone(r: Lists, k: nat)
    requires k < |r| && LastFree(r[k]) >= 0
    ensures ReduceAsWritten(r, k, k) == (r, false)
  {
  }

  lemma FlagLast(l: Lists, k: nat, p: nat, r: Lists) returns (m: Lists)
    requires k + 1 < |l| && r == l[k + 1 := []][k := l[k] + Pair(p, k, false)]
    ensures LastFree(r[k]) == |l[k]| + 1 && m == SetFlag(r, k, |l[k]| + 1, true)
    ensures m == l[k + 1 := []][k := l[k] + Pair(p, k, true)]
  {
    LastOfPair(r[k], l[k], p, k);
    m := SetFlag(r, k, |l[k]| + 1, true);
    assert m == r[k := l[k] + Pair(p, k, true)];
  }

  /** Three requests of order k: the list of that order, with p's halves in use and q's upper half. */
  lemma ThreeRequests(base: nat, n: nat, k: nat, pages: nat) returns (l1: Lists, l2: Lists, l3: Lists, p: nat, q: nat)
    requires 0 < base && k + 1 < n < MAX_PAGE_ORDER && Aligned(base, n) && Asks(pages, k)
    ensures Gives(Initial(base, n), pages, l1) && Gives(l1, pages, l2) && Gives(l2, pages, l3)
    ensures Calm(l3, base, n) && forall m :: 0 <= m < k ==> l3[m] == []
    ensures l3[k] == [Block(p, k, true), Block(Buddy(p, k), k, true), Block(q, k, false), Block(Buddy(q, k), k, true)]
  {
    l1, p := FirstRequest(base, n, k, pages);
    PairInUse(l1[k], p, k);
    l2 := RequestInPlace(l1, k, pages, 0);
    var t := l2[k];
    q := l2[k + 1][0].page;
    assert l2[k + 1] == [l2[k + 1][0]];
    l3 := RequestAbove(l2, k, pages, l2[k + 1][0]);
    assert l3[k] == t + Pair(q, k, true);
    StaysCalm(base, n, pages, l1, l2, l3);
  }

  lemma PairInUse(s: seq<Block>, p: nat, k: nat)
    requires s == Pair(p, k, true)
    ensures LastFree(s) == 0
    ensures var t := s[0 := s[0].(used := true)];
            t == [Block(p, k, true), Block(Buddy(p, k), k, true)] && LastFree(t) < 0
  {
    var t := s[0 := s[0].(used := true)];
    assert s[..1] == [s[0]] && t[..1] == [t[0]] && LastFree(t[..1]) < 0;
  }

  lemma StaysCalm(base: nat, n: nat, pages: nat, l1: Lists, l2: Lists, l3: Lists)
    requires 0 < base && n < MAX_PAGE_ORDER && Aligned(base, n)
    requires Gives(Initial(base, n), pages, l1) && Gives(l1, pages, l2) && Gives(l2, pages, l3)
    requires AllocGuard(Initial(base, n), pages) && AllocGuard(l1, pages) && AllocGuard(l2, pages)
    ensures Calm(l3, base, n)
  {
    var l0 := Initial(base, n);
    InitialSettled(base, n);
    assert Look((l0, l1)) && Look((l1, l2)) && Look((l2, l3));
    var m1 := GuardedGives(l0, pages, base, n);
    var m2 := GuardedGives(l1, pages, base, n);
    var m3 := GuardedGives(l2, pages, base, n);
  }

  // ---------------------------------------------------------------- refused

  /** Two calls from boot suffice for the code as it is to refuse memory it has, wherever the range
      starts: after two pages have been taken from a larger block, one page is refused although the
      two pages beside them are free. */
  lemma RefusesFreePages(base: nat, n: nat) returns (l: Lists)
    requires 2 <= n < MAX_PAGE_ORDER
    ensures |l| == MAX_PAGE_ORDER + 1 && l == AllocAsWritten(Initial(base, n), 2).0
    ensures AllocAsWritten(l, 1) == (l, 0)
    ensures exists b :: b in Blocks(l) && !b.used && b.order == 1
  {
    SmallRequests();
    var p;
    l, p := FirstRequest(base, n, 1, 2);
    assert Look((Initial(base, n), l));
    var s := l[1];
    assert s[..1] == [Block(p, 1, false)] && LastFree(s) == 0 && |s| == 2;
    SearchStops(l, 0, 1);
    assert RemoveNextFreeResult(s).2;
    RequestRefused(l, 0, 1, 1);
    assert l[1][0] in Blocks(l);
  }

  // ---------------------------------------------------------------- dropped

  /** Four calls from boot suffice for the code as it is to drop memory that is in use: after three
      requests for two pages, one for a single page leaves a block that was in use in no list, and
      freeing it does nothing. */
  lemma DropsLiveBlock(base: nat, n: nat) returns (l: Lists, m: Lists, d: Block)
    requires 0 < base && 3 <= n < MAX_PAGE_ORDER && Aligned(base, n)
    ensures |l| == MAX_PAGE_ORDER + 1 && l == RunAsWritten(Initial(base, n), [PageAlloc(2), PageAlloc(2), PageAlloc(2)])
    ensures m == AllocAsWritten(l, 1).0
    ensures d in Used(Blocks(l)) && !Covered(Blocks(m), d.page) && FreeAsWritten(m, d.page) == m
  {
    SmallRequests();
    var l1, l2, p, q;
    l1, l2, l, p, q := ThreeRequests(base, n, 1, 2);
    RunThree(Initial(base, n), 2, l1, l2, l);
    d := l[1][3];
    assert d in Blocks(l);
    m := DropsLast(l, base, n);
    NothingThere(m, d.page);
  }

  lemma RunThree(l0: Lists, pages: nat, l1: Lists, l2: Lists, l3: Lists)
    requires Gives(l0, pages, l1) && Gives(l1, pages, l2) && Gives(l2, pages, l3)
    ensures RunAsWritten(l0, [PageAlloc(pages), PageAlloc(pages), PageAlloc(pages)]) == l3
  {
    var a := PageAlloc(pages);
    RunHead(l2, pages, [], l3);
    RunHead(l1, pages, [a], l2);
    RunHead(l0, pages, [a, a], l1);
    assert [a] + [] == [a] && [a] + [a] == [a, a] && [a] + [a, a] == [a, a, a];
  }

  /** A request for a single page that splits the third of four blocks of two pages. */
  lemma DropsLast(l: Lists, base: nat, n: nat) returns (m: Lists)
    requires Calm(l, base, n) && l[0] == [] && |l[1]| == 4 && !l[1][2].used && l[1][3].used
    ensures m == AllocAsWritten(l, 1).0 && !Covered(Blocks(m), l[1][3].page)
  {
    SmallRequests();
    var s := l[1];
    assert s[..3][2] == s[2] && LastFree(s[..3]) == 2 && LastFree(s) == 2;
    SearchStops(l, 0, 1);
    SplitLosesSuffix(l, base, n, 1, 3) by { assert Look(l); }
    var r := SplitAsWritten(l, 1);
    assert ReduceAsWritten(l, 1, 0) == ReduceAsWritten(r, 0, 0) == (r, false);
    RequestLeads(l, 0, 1, 1, r);
    m := SetFlag(r, 0, LastFree(r[0]), true);
    FlagCovers(r, 0, LastFree(r[0]), true, l[1][3].page);
  }

  /** A change of flag covers no address that was not covered. */
  lemma FlagCovers(l: Lists, o: nat, i: nat, used: bool, a: nat)
    requires o < |l| && i < |l[o]|
    ensures Covered(Blocks(SetFlag(l, o, i, used)), a) ==> Covered(Blocks(l), a)
  {
    var m := SetFlag(l, o, i, used);
    if Covered(Blocks(m), a) {
      var b :| b in Blocks(m) && b.Contains(a);
      var p, j :| 0 <= p < |m| && 0 <= j < |m[p]| && m[p][j] == b;
      assert l[p][j] in Blocks(l) && l[p][j].Contains(a);
    }
  }

  lemma NothingThere(l: Lists, a: nat)
    requires !Covered(Blocks(l), a)
    ensures FreeAsWritten(l, a) == l
  {
    forall o, i | 0 <= o < |l| && 0 <= i < |l[o]| ensures l[o][i].page != a {
      assert l[o][i] in Blocks(l) && !l[o][i].Contains(a);
    }
  }

  // ---------------------------------------------------------------- lost

  /** Six calls from boot suffice for the code as it is to lose a page: take four single pages, free
      the one at the head of its list, which stays there since its buddy is in use, then free the
      buddy. The buddy is unlinked, the head is not, and the page is in no list any more. */
  lemma LosesFreedPage(base: nat, n: nat) returns (l: Lists, p: nat, m: Lists)
    requires 0 < base && 2 <= n < MAX_PAGE_ORDER && Aligned(base, n)
    ensures |l| == MAX_PAGE_ORDER + 1
    ensures l == RunAsWritten(Initial(base, n), [PageAlloc(1), PageAlloc(1), PageAlloc(1), PageAlloc(1)])
    ensures Block(p, 0, true) in Blocks(l) && Block(Buddy(p, 0), 0, true) in Blocks(l)
    ensures m == FreeAsWritten(l, p) && !Covered(Blocks(FreeAsWritten(m, Buddy(p, 0))), Buddy(p, 0))
  {
    SmallRequests();
    var l1, l2, l3, q;
    l1, l2, l3, p, q := ThreeRequests(base, n, 0, 1);
    l := FourthRequest(l3, base, n);
    RunFour(Initial(base, n), l1, l2, l3, l);
    assert l[0][0] in Blocks(l) && l[0][1] in Blocks(l);
    HeadsBuddy(l, base, n, p);
    m := FreeHead(l, base, n, p);
    FreeBehindHead(m, base, n, p);
  }

  lemma HeadsBuddy(l: Lists, base: nat, n: nat, p: nat)
    requires Calm(l, base, n) && Block(p, 0, true) in Blocks(l)
    ensures Buddy(p, 0) != p && Buddy(Buddy(p, 0), 0) == p
  {
    assert Look(l);
    BuddyHalves(p, 0);
  }

  lemma FourthRequest(l: Lists, base: nat, n: nat) returns (m: Lists)
    requires Calm(l, base, n) && |l[0]| == 4 && !l[0][2].used && l[0][3].used
    ensures Gives(l, 1, m) && Calm(m, base, n) && m[0] == l[0][2 := l[0][2].(used := true)]
  {
    SmallRequests();
    var s := l[0];
    assert s[..3][2] == s[2] && LastFree(s[..3]) == 2 && LastFree(s) == 2;
    m := RequestInPlace(l, 0, 1, 2);
    assert Look((l, m));
    var m' := GuardedGives(l, 1, base, n);
  }

  lemma RunFour(l0: Lists, l1: Lists, l2: Lists, l3: Lists, l4: Lists)
    requires Gives(l0, 1, l1) && Gives(l1, 1, l2) && Gives(l2, 1, l3) && Gives(l3, 1, l4)
    ensures RunAsWritten(l0, [PageAlloc(1), PageAlloc(1), PageAlloc(1), PageAlloc(1)]) == l4
  {
    var a := PageAlloc(1);
    RunThree(l1, 1, l2, l3, l4);
    RunHead(l0, 1, [a, a, a], l1);
    FourOps(a);
  }

  lemma FourOps(a: Op)
    ensures [a] + [a, a, a] == [a, a, a, a]
  {
  }

  lemma RunHead(l: Lists, pages: nat, rest: seq<Op>, m: Lists)
    requires Gives(l, pages, m)
    ensures RunAsWritten(l, [PageAlloc(pages)] + rest) == RunAsWritten(m, rest)
  {
    assert Look((l, m)) && ([PageAlloc(pages)] + rest)[1..] == rest;
  }

  /** Freeing the head of its list, with its buddy in use, changes its flag only. */
  lemma FreeHead(l: Lists, base: nat, n: nat, p: nat) returns (m: Lists)
    requires Calm(l, base, n) && |l[0]| == 4 && l[0][0] == Block(p, 0, true) && l[0][1] == Block(Buddy(p, 0), 0, true)
    requires Buddy(p, 0) != p
    ensures m == FreeAsWritten(l, p) && m == l[0 := l[0][0 := Block(p, 0, false)]] && Calm(m, base, n)
  {
    m := SetFlag(l, 0, 0, false);
    assert IndexOfPage(l[0], p) == 0 && FindOrder(l, p, 0) == 0;
    SecondAt(m[0], Buddy(p, 0));
    FreeMeetsContract(l, p);
    assert Look(l);
    FreeCorrect(l, base, n, p);
  }

  lemma SecondAt(s: seq<Block>, p: nat)
    requires |s| > 1 && s[0].page != p && s[1].page == p
    ensures IndexOfPage(s, p) == 1
  {
    assert s[1..][0] == s[1];
  }

  lemma FreeBehindHead(m: Lists, base: nat, n: nat, p: nat)
    requires Calm(m, base, n) && |m[0]| == 4 && m[0][0] == Block(p, 0, false) && m[0][1] == Block(Buddy(p, 0), 0, true)
    requires Buddy(p, 0) != p && Buddy(Buddy(p, 0), 0) == p
    ensures !Covered(Blocks(FreeAsWritten(m, Buddy(p, 0))), Buddy(p, 0))
  {
    var q := Buddy(p, 0);
    var r: Lists := SetFlag(m, 0, 1, false);
    SecondAt(m[0], q);
    assert FindOrder(m, q, 0) == 0 && FreeAsWritten(m, q) == MergeAsWritten(r, 0, 1);
    assert r[0][0].page == p && IndexOfPage(r[0], p) == 0;
    var t := r[0 := Cut(r[0], 1)];
    assert MergeAsWritten(r, 0, 1) == JoinAsWritten(r, 0, 1, 0) == t;
    CutUncovers(m, base, n, r, t);
  }

  lemma CutUncovers(m: Lists, base: nat, n: nat, r: Lists, t: Lists)
    requires Calm(m, base, n) && |m[0]| > 1 && r == SetFlag(m, 0, 1, false) && t == r[0 := Cut(r[0], 1)]
    ensures !Covered(Blocks(t), m[0][1].page)
  {
    assert Look(m);
    ClearFlag(m, base, n, 0, 1);
    var b := r[0][1];
    assert b in Blocks(r);
    CutBlocks(r, 0, 1);
    forall c | c in Blocks(t) ensures !c.Contains(b.page) { assert c.Apart(b); }
  }
}
