/** What page_alloc and page_free compute, as functions on the per-order block lists, and the
    theorems about every run of them from one aligned initial block. */
module BuddyLists {
  import opened Dyadic
  import opened BuddyTiling

  const MAX_PAGE_ORDER: nat := 11
  const MAX_PAGE_BLOCK: nat := 2048

  /** One list per order, in link order. */
  type Lists = seq<seq<Block>>

  // ---------------------------------------------------------------- one list

  /** The index of the last free block, or -1. */
  function LastFree(s: seq<Block>): (i: int)
    ensures -1 <= i < |s|
    ensures i >= 0 ==> !s[i].used
    ensures forall j :: i < j < |s| ==> s[j].used
  {
    if s == [] then -1
    else if !s[|s| - 1].used then |s| - 1
    else LastFree(s[..|s| - 1])
  }

  /** The index of the first block that starts at p, or -1. */
  function IndexOfPage(s: seq<Block>, p: nat): (i: int)
    ensures -1 <= i < |s|
    ensures i >= 0 ==> s[i].page == p
    ensures forall j :: 0 <= j < (if i < 0 then |s| else i) ==> s[j].page != p
  {
    if s == [] then -1
    else if s[0].page == p then 0
    else var i := IndexOfPage(s[1..], p); if i < 0 then -1 else i + 1
  }

  function Cut<T>(s: seq<T>, i: nat): (r: seq<T>)
    requires i < |s|
    ensures |r| == |s| - 1
    ensures forall j :: 0 <= j < i ==> r[j] == s[j]
    ensures forall j :: i <= j < |r| ==> r[j] == s[j + 1]
  {
    s[..i] + s[i + 1..]
  }

  // ---------------------------------------------------------------- all the lists

  ghost predicate WellFormed(l: Lists) {
    && |l| == MAX_PAGE_ORDER + 1
    && (forall o, i :: 0 <= o < |l| && 0 <= i < |l[o]| ==> l[o][i].order == o)
    && (forall o, i, j :: 0 <= o < |l| && 0 <= i < j < |l[o]| ==> l[o][i].page != l[o][j].page)
  }

  ghost function Blocks(l: Lists): set<Block> {
    set o, i | 0 <= o < |l| && 0 <= i < |l[o]| :: l[o][i]
  }

  /** The allocator's invariant between its steps. */
  ghost predicate State(l: Lists, base: nat, n: nat) {
    WellFormed(l) && 0 < base && n < MAX_PAGE_ORDER && Tiled(Blocks(l), base, n)
  }

  /** The allocator's invariant between calls. */
  ghost predicate Settled(l: Lists, base: nat, n: nat) {
    State(l, base, n) && Coalesced(Blocks(l))
  }

  function Initial(base: nat, n: nat): Lists
    requires n < MAX_PAGE_ORDER
  {
    seq(MAX_PAGE_ORDER + 1, o => if o == n then [Whole(base, n)] else [])
  }

  // ---------------------------------------------------------------- the operations

  /** The last free block of order o gives way to two free halves at the end of list o - 1. */
  function Split(l: Lists, o: nat): (r: Lists)
    requires 0 < o < |l| && LastFree(l[o]) >= 0
    ensures |r| == |l|
  {
    var i := LastFree(l[o]);
    var p := l[o][i].page;
    l[o := Cut(l[o], i)]
     [o - 1 := l[o - 1] + [Block(p, o - 1, false), Block(Buddy(p, o - 1), o - 1, false)]]
  }

  function Reduce(l: Lists, o: nat, target: nat): (r: Lists)
    requires target <= o < |l| && LastFree(l[o]) >= 0
    ensures |r| == |l| && LastFree(r[target]) >= 0
    decreases o
  {
    if o == target then l else Reduce(Split(l, o), o - 1, target)
  }

  /** The least order of at least k, below MAX_PAGE_ORDER, that has a free block; otherwise
      the order at which the search stops. */
  function FirstOrder(l: Lists, k: nat): (o: nat)
    requires |l| == MAX_PAGE_ORDER + 1
    ensures k <= o && (k <= MAX_PAGE_ORDER ==> o <= MAX_PAGE_ORDER)
    ensures o < MAX_PAGE_ORDER ==> LastFree(l[o]) >= 0
    ensures forall m :: k <= m < o && m < MAX_PAGE_ORDER ==> LastFree(l[m]) < 0
    decreases MAX_PAGE_ORDER - k
  {
    if k >= MAX_PAGE_ORDER || LastFree(l[k]) >= 0 then k else FirstOrder(l, k + 1)
  }

  lemma MaxPageBlock()
    ensures Pow2(MAX_PAGE_ORDER) == MAX_PAGE_BLOCK
  {
    assert Pow2(11) == 2 * Pow2(10) == 4 * Pow2(9) == 8 * Pow2(8) == 16 * Pow2(7) == 32 * Pow2(6) == 64 * Pow2(5);
    assert Pow2(5) == 2 * Pow2(4) == 4 * Pow2(3) == 8 * Pow2(2) == 16 * Pow2(1) == 32;
  }

  /** The least order whose blocks hold the pages. */
  function PageOrder(pages: nat): (k: nat)
    requires pages <= MAX_PAGE_BLOCK
    ensures k <= MAX_PAGE_ORDER && pages <= Pow2(k) && forall j :: 0 <= j < k ==> Pow2(j) < pages
  {
    MaxPageBlock();
    OrderFrom(pages, 0)
  }

  function SetFlag(l: Lists, o: nat, i: nat, used: bool): (r: Lists)
    requires o < |l| && i < |l[o]|
    ensures |r| == |l|
  {
    l[o := l[o][i := l[o][i].(used := used)]]
  }

  /** page_alloc: the new lists and the address, 0 for failure. */
  function Alloc(l: Lists, pages: nat): (Lists, nat)
    requires |l| == MAX_PAGE_ORDER + 1
  {
    if pages == 0 || pages > MAX_PAGE_BLOCK then (l, 0) else
    var k := PageOrder(pages);
    var o := FirstOrder(l, k);
    if LastFree(l[o]) < 0 then (l, 0) else
    var m := Reduce(l, o, k);
    var i := LastFree(m[k]);
    (SetFlag(m, k, i, true), m[k][i].page)
  }

  /** Two records leave list o and their union, starting at the lower address, enters list o + 1. */
  function Join(l: Lists, o: nat, i: nat, j: nat): (r: Lists)
    requires o + 1 < |l| && i < |l[o]| && j < |l[o]| && i != j
    ensures |r| == |l| && |r[o + 1]| == |l[o + 1]| + 1
  {
    var p, q := l[o][i].page, l[o][j].page;
    var rest := Cut(Cut(l[o], i), if j < i then j else j - 1);
    l[o := rest][o + 1 := l[o + 1] + [Block(if p > q then q else p, o + 1, false)]]
  }

  /** merge_buddy on record i of list o. The test o + 1 < |l| stands for the array bound the
      code does not test; BuddyLists.MergeKeepsState shows it never decides anything. */
  function Merge(l: Lists, o: nat, i: nat): (r: Lists)
    requires o < |l| && i < |l[o]|
    ensures |r| == |l|
    decreases |l| - o
  {
    BuddyCases(l[o][i].page, o);
    var j := IndexOfPage(l[o], Buddy(l[o][i].page, o));
    if j < 0 || l[o][i].used || l[o][j].used || o + 1 >= |l| then l
    else var m := Join(l, o, i, j); Merge(m, o + 1, |m[o + 1]| - 1)
  }

  /** The lowest order of at least o that has a block starting at p, or |l|. */
  function FindOrder(l: Lists, p: nat, o: nat): (r: nat)
    requires o <= |l|
    ensures o <= r <= |l|
    ensures r < |l| ==> IndexOfPage(l[r], p) >= 0
    ensures forall m :: o <= m < r ==> IndexOfPage(l[m], p) < 0
    decreases |l| - o
  {
    if o == |l| || IndexOfPage(l[o], p) >= 0 then o else FindOrder(l, p, o + 1)
  }

  function Free(l: Lists, p: nat): (r: Lists)
    ensures |r| == |l|
  {
    var o := FindOrder(l, p, 0);
    if o == |l| then l else
    var i := IndexOfPage(l[o], p);
    Merge(SetFlag(l, o, i, false), o, i)
  }

  // ---------------------------------------------------------------- lists against sets

  lemma InBlocks(l: Lists, b: Block)
    requires WellFormed(l)
    ensures b in Blocks(l) <==> b.order < |l| && b in l[b.order]
  {
  }

  lemma AppendBlocks(l: Lists, o: nat, b: Block)
    requires o < |l|
    ensures Blocks(l[o := l[o] + [b]]) == Blocks(l) + {b}
  {
    var m := l[o := l[o] + [b]];
    assert m[o][|l[o]|] == b;
    forall x | x in Blocks(l) ensures x in Blocks(m) {
      var p, i :| 0 <= p < |l| && 0 <= i < |l[p]| && l[p][i] == x;
      assert m[p][i] == x;
    }
  }

  lemma CutBlocks(l: Lists, o: nat, i: nat)
    requires WellFormed(l) && o < |l| && i < |l[o]|
    ensures Blocks(l[o := Cut(l[o], i)]) == Blocks(l) - {l[o][i]}
    ensures WellFormed(l[o := Cut(l[o], i)])
  {
    var m := l[o := Cut(l[o], i)];
    forall x | x in Blocks(l) && x != l[o][i] ensures x in Blocks(m) {
      var p, j :| 0 <= p < |l| && 0 <= j < |l[p]| && l[p][j] == x;
      if p == o && j > i { assert m[o][j - 1] == x; } else { assert m[p][j] == x; }
    }
    forall x | x in Blocks(m) ensures x in Blocks(l) && x != l[o][i] {
      var p, j :| 0 <= p < |m| && 0 <= j < |m[p]| && m[p][j] == x;
      if p == o && j >= i { assert l[o][j + 1] == x; } else { assert l[p][j] == x; }
    }
  }

  lemma FlagBlocks(l: Lists, o: nat, i: nat, used: bool)
    requires WellFormed(l) && o < |l| && i < |l[o]|
    ensures var b := l[o][i]; Blocks(SetFlag(l, o, i, used)) == Blocks(l) - {b} + {b.(used := used)}
    ensures WellFormed(SetFlag(l, o, i, used))
  {
    var m, b := SetFlag(l, o, i, used), l[o][i];
    forall x | x in Blocks(l) && x != b ensures x in Blocks(m) {
      var p, j :| 0 <= p < |l| && 0 <= j < |l[p]| && l[p][j] == x;
      assert m[p][j] == x;
    }
    assert m[o][i] == b.(used := used);
    forall x | x in Blocks(m) ensures x in Blocks(l) - {b} + {b.(used := used)} {
      var p, j :| 0 <= p < |m| && 0 <= j < |m[p]| && m[p][j] == x;
      if p != o || j != i { assert l[p][j] == x && x != b; }
    }
  }

  lemma AppendWellFormed(l: Lists, o: nat, b: Block)
    requires WellFormed(l) && o < |l| && b.order == o
    requires forall c :: c in Blocks(l) ==> c.order != o || c.page != b.page
    ensures WellFormed(l[o := l[o] + [b]])
  {
    forall i | 0 <= i < |l[o]| ensures l[o][i].page != b.page { assert l[o][i] in Blocks(l); }
  }

  // ---------------------------------------------------------------- allocation

  /** No other block of a tiling starts inside b. */
  lemma NoStartInside(s: set<Block>, base: nat, n: nat, b: Block, a: nat)
    requires Tiled(s, base, n) && b in s && b.Contains(a)
    ensures forall c :: c in s - {b} ==> c.page != a
  {
    forall c | c in s - {b} ensures c.page != a { assert c.Apart(b); }
  }

  lemma SplitBlocks(l: Lists, o: nat)
    requires WellFormed(l) && 0 < o < |l| && LastFree(l[o]) >= 0
    requires var b := l[o][LastFree(l[o])];
             && Buddy(b.page, o - 1) != b.page
             && forall c :: c in Blocks(l) - {b} ==> c.page != b.page && c.page != Buddy(b.page, o - 1)
    ensures WellFormed(Split(l, o))
    ensures Blocks(Split(l, o)) == SplitSet(Blocks(l), l[o][LastFree(l[o])])
  {
    var k, i := o - 1, LastFree(l[o]);
    var b := l[o][i];
    var lo, hi := Block(b.page, k, false), Block(Buddy(b.page, k), k, false);
    var l1 := l[o := Cut(l[o], i)];
    CutBlocks(l, o, i);
    var l2 := l1[k := l1[k] + [lo]];
    AppendBlocks(l1, k, lo);
    AppendWellFormed(l1, k, lo);
    var l3 := l2[k := l2[k] + [hi]];
    AppendBlocks(l2, k, hi);
    AppendWellFormed(l2, k, hi);
    assert l3[k] == Split(l, o)[k];
    assert l3 == Split(l, o);
  }

  lemma SplitIsNew(s: set<Block>, base: nat, n: nat, b: Block)
    requires Tiled(s, base, n) && b in s && b.order > 0
    ensures Buddy(b.page, b.order - 1) != b.page
    ensures forall c :: c in s - {b} ==> c.page != b.page && c.page != Buddy(b.page, b.order - 1)
  {
    Halves(b.page, b.order - 1);
    SizeDouble(b.order - 1);
    NoStartInside(s, base, n, b, b.page);
    NoStartInside(s, base, n, b, Buddy(b.page, b.order - 1));
  }

  lemma SplitKeepsState(l: Lists, base: nat, n: nat, o: nat)
    requires State(l, base, n) && 0 < o < |l| && LastFree(l[o]) >= 0
    requires Coalesced(Blocks(l) - {l[o][LastFree(l[o])]})
    ensures State(Split(l, o), base, n)
    ensures Blocks(Split(l, o)) == SplitSet(Blocks(l), l[o][LastFree(l[o])])
    ensures var r := Split(l, o)[o - 1];
            LastFree(r) == |r| - 1 && Coalesced(Blocks(Split(l, o)) - {r[|r| - 1]})
  {
    var b := l[o][LastFree(l[o])];
    assert b in Blocks(l);
    SplitIsNew(Blocks(l), base, n, b);
    SplitBlocks(l, o);
    SplitKeeps(Blocks(l), base, n, b);
  }

  lemma {:induction false} ReduceKeepsState(l: Lists, base: nat, n: nat, o: nat, target: nat)
    requires State(l, base, n) && target <= o < |l| && LastFree(l[o]) >= 0
    requires Coalesced(Blocks(l) - {l[o][LastFree(l[o])]})
    ensures var r := Reduce(l, o, target); var b := r[target][LastFree(r[target])];
            && State(r, base, n)
            && Coalesced(Blocks(r) - {b})
            && Used(Blocks(r)) == Used(Blocks(l))
            && FreeRun(Blocks(l), base, n, b.page, target)
    decreases o
  {
    var b := l[o][LastFree(l[o])];
    assert b in Blocks(l);
    if o == target {
      BlockIsFreeRun(Blocks(l), base, n, b);
    } else {
      SplitKeepsState(l, base, n, o);
      var m := Split(l, o);
      ReduceKeepsState(m, base, n, o - 1, target);
      var r: Lists := Reduce(l, o, target);
      UnsplitFreeRun(Blocks(l), base, n, b, r[target][LastFree(r[target])].page, target);
    }
  }

  lemma BlockIsFreeRun(s: set<Block>, base: nat, n: nat, b: Block)
    requires Tiled(s, base, n) && b in s && !b.used
    ensures FreeRun(s, base, n, b.page, b.order)
  {
  }

  lemma UnsplitFreeRun(s: set<Block>, base: nat, n: nat, b: Block, a: nat, k: nat)
    requires Tiled(s, base, n) && b in s && !b.used && b.order > 0
    requires FreeRun(SplitSet(s, b), base, n, a, k)
    ensures FreeRun(s, base, n, a, k)
  {
    forall c | c in s && c.Meets(a, k) ensures !c.used {
      if c != b { assert c in SplitSet(s, b); }
    }
  }

  /** Marking the one block that may have a free buddy as used leaves a coalesced set. */
  lemma TakeCoalesces(s: set<Block>, b: Block)
    requires Coalesced(s - {b}) && b in s && !b.used
    ensures Coalesced(s - {b} + {b.(used := true)})
    ensures Used(s - {b} + {b.(used := true)}) == Used(s) + {b.(used := true)}
  {
  }

  /** When the search finds no free block, there is no free run. */
  lemma NoBlockNoRun(l: Lists, base: nat, n: nat, k: nat, a: nat)
    requires Settled(l, base, n) && k <= MAX_PAGE_ORDER && LastFree(l[FirstOrder(l, k)]) < 0
    ensures !FreeRun(Blocks(l), base, n, a, k)
  {
    if FreeRun(Blocks(l), base, n, a, k) {
      var b := RunInBlock(Blocks(l), base, n, a, k);
      InBlocks(l, b);
      assert false;
    }
  }

  /** When it finds one, the block handed out was free memory and is the only new one in use. */
  lemma TakeBlock(l: Lists, base: nat, n: nat, k: nat, o: nat)
    requires Settled(l, base, n) && k <= o < |l| && LastFree(l[o]) >= 0
    ensures var m := Reduce(l, o, k); var i := LastFree(m[k]); var r := SetFlag(m, k, i, true);
            && Settled(r, base, n)
            && base <= m[k][i].page
            && Used(Blocks(r)) == Used(Blocks(l)) + {Block(m[k][i].page, k, true)}
            && FreeRun(Blocks(l), base, n, m[k][i].page, k)
  {
    var m := Reduce(l, o, k);
    ReduceKeepsState(l, base, n, o, k);
    var i := LastFree(m[k]);
    var b := m[k][i];
    assert b in Blocks(m);
    FlagBlocks(m, k, i, true);
    FlagKeeps(Blocks(m), base, n, b, true);
    TakeCoalesces(Blocks(m), b);
  }

  /** page_alloc keeps the invariant. On success it adds to the blocks in use exactly one block of
      the least order that holds the request, carved out of memory that was free; on failure it
      changes nothing. It fails exactly when the request is out of range or no wholly free
      aligned run of the needed size exists. */
  lemma AllocCorrect(l: Lists, base: nat, n: nat, pages: nat)
    requires Settled(l, base, n)
    ensures var (m, r) := Alloc(l, pages); Settled(m, base, n)
    ensures var (m, r) := Alloc(l, pages);
            r != 0 ==> && 0 < pages <= 2048
                       && Used(Blocks(m)) == Used(Blocks(l)) + {Block(r, PageOrder(pages), true)}
                       && FreeRun(Blocks(l), base, n, r, PageOrder(pages))
    ensures var (m, r) := Alloc(l, pages); r == 0 ==> m == l
    ensures var (m, r) := Alloc(l, pages);
            r == 0 <==> pages == 0 || pages > 2048
                        || forall a :: !FreeRun(Blocks(l), base, n, a, PageOrder(pages))
  {
    if 0 < pages <= MAX_PAGE_BLOCK {
      var k := PageOrder(pages);
      var o := FirstOrder(l, k);
      if LastFree(l[o]) < 0 {
        forall a ensures !FreeRun(Blocks(l), base, n, a, k) { NoBlockNoRun(l, base, n, k, a); }
      } else {
        TakeBlock(l, base, n, k, o);
      }
    }
  }

  // ---------------------------------------------------------------- release

  lemma JoinBlocks(l: Lists, o: nat, i: nat, j: nat)
    requires WellFormed(l) && o + 1 < |l| && i < |l[o]| && j < |l[o]| && i != j
    requires forall x :: x in Blocks(l) - {l[o][i], l[o][j]} ==> x.page != l[o][i].page && x.page != l[o][j].page
    ensures WellFormed(Join(l, o, i, j))
    ensures Blocks(Join(l, o, i, j)) == MergeSet(Blocks(l), l[o][i], l[o][j])
  {
    var b, c, j' := l[o][i], l[o][j], if j < i then j else j - 1;
    var l1 := l[o := Cut(l[o], i)];
    CutBlocks(l, o, i);
    assert l1[o][j'] == c;
    var l2 := l1[o := Cut(l1[o], j')];
    CutBlocks(l1, o, j');
    var p := Block(if b.page > c.page then c.page else b.page, o + 1, false);
    AppendBlocks(l2, o + 1, p);
    AppendWellFormed(l2, o + 1, p);
    assert l2[o + 1 := l2[o + 1] + [p]] == Join(l, o, i, j);
  }

  lemma JoinKeepsState(l: Lists, base: nat, n: nat, o: nat, i: nat, j: nat)
    requires State(l, base, n) && o < |l| && i < |l[o]| && j < |l[o]|
    requires FreeBuddies(l[o][i], l[o][j]) && Coalesced(Blocks(l) - {l[o][i]})
    ensures o < n && i != j
    ensures State(Join(l, o, i, j), base, n)
    ensures Blocks(Join(l, o, i, j)) == MergeSet(Blocks(l), l[o][i], l[o][j])
    ensures var r := Join(l, o, i, j)[o + 1]; var last := r[|r| - 1];
            !last.used && Coalesced(Blocks(Join(l, o, i, j)) - {last})
  {
    var b, c := l[o][i], l[o][j];
    assert b in Blocks(l) && c in Blocks(l);
    BuddyHalves(b.page, o);
    NoStartInside(Blocks(l), base, n, b, b.page);
    NoStartInside(Blocks(l), base, n, c, c.page);
    MergeKeeps(Blocks(l), base, n, b, c);
    JoinBlocks(l, o, i, j);
    var p := Block(if b.page > c.page then c.page else b.page, o + 1, false);
    assert MergeSet(Blocks(l), b, c) - {p} <= Blocks(l) - {b};
  }

  /** With no free buddy for b in its list, coalescing everywhere else is coalescing. */
  lemma NoBuddyCoalesced(l: Lists, base: nat, n: nat, o: nat, i: nat)
    requires State(l, base, n) && o < |l| && i < |l[o]|
    requires Coalesced(Blocks(l) - {l[o][i]})
    requires var j := IndexOfPage(l[o], Buddy(l[o][i].page, o)); j < 0 || l[o][j].used
    ensures Coalesced(Blocks(l))
  {
    var b := l[o][i];
    assert b in Blocks(l);
    forall e | e in Blocks(l) && e.order == o && !e.used ensures e.page != Buddy(b.page, o) {
      NoFreeRecord(l, o, Buddy(b.page, o), e);
    }
    OnlyBuddies(Blocks(l), b);
  }

  lemma NoFreeRecord(l: Lists, o: nat, p: nat, e: Block)
    requires WellFormed(l) && o < |l| && e in Blocks(l) && e.order == o && !e.used
    requires IndexOfPage(l[o], p) < 0 || l[o][IndexOfPage(l[o], p)].used
    ensures e.page != p
  {
    InBlocks(l, e);
    var q :| 0 <= q < |l[o]| && l[o][q] == e;
  }

  /** Where only b may have a free buddy and has none, there are no free buddies. */
  lemma OnlyBuddies(s: set<Block>, b: Block)
    requires Coalesced(s - {b}) && b in s && Aligned(b.page, b.order)
    requires forall e :: e in s ==> Aligned(e.page, e.order)
    requires forall e :: e in s && e.order == b.order && !e.used ==> e.page != Buddy(b.page, b.order)
    ensures Coalesced(s)
  {
    BuddyHalves(b.page, b.order);
    forall c, d | c in s && d in s ensures !FreeBuddies(c, d) {
      if d == b && c.order == b.order { BuddyHalves(c.page, c.order); }
    }
  }

  lemma MergeUsed(s: set<Block>, b: Block, c: Block)
    requires !b.used && !c.used
    ensures Used(MergeSet(s, b, c)) == Used(s)
  {
  }

  /** Whether merge_buddy on record i of list o finds a free buddy. */
  predicate Merges(l: Lists, o: nat, i: nat)
    requires o < |l| && i < |l[o]|
  {
    var j := IndexOfPage(l[o], Buddy(l[o][i].page, o));
    j >= 0 && !l[o][j].used
  }

  /** Where merge_buddy may start: record i of list o is free, and only it may have a free buddy. */
  ghost predicate MayMerge(l: Lists, base: nat, n: nat, o: nat, i: nat) {
    State(l, base, n) && o < |l| && i < |l[o]| && !l[o][i].used && Coalesced(Blocks(l) - {l[o][i]})
  }

  lemma MergeStops(l: Lists, base: nat, n: nat, o: nat, i: nat)
    requires MayMerge(l, base, n, o, i) && !Merges(l, o, i)
    ensures Merge(l, o, i) == l && Settled(l, base, n)
  {
    NoBuddyCoalesced(l, base, n, o, i);
  }

  lemma MergeGoesOn(l: Lists, base: nat, n: nat, o: nat, i: nat) returns (m: Lists)
    requires MayMerge(l, base, n, o, i) && Merges(l, o, i)
    ensures o < n && o + 1 < |l| && IndexOfPage(l[o], Buddy(l[o][i].page, o)) != i
    ensures m == Join(l, o, i, IndexOfPage(l[o], Buddy(l[o][i].page, o)))
    ensures MayMerge(m, base, n, o + 1, |m[o + 1]| - 1)
    ensures Used(Blocks(m)) == Used(Blocks(l))
    ensures Merge(l, o, i) == Merge(m, o + 1, |m[o + 1]| - 1)
  {
    var b := l[o][i];
    assert b in Blocks(l);
    BuddyHalves(b.page, o);
    var j := IndexOfPage(l[o], Buddy(b.page, o));
    JoinKeepsState(l, base, n, o, i, j);
    m := Join(l, o, i, j);
    MergeUsed(Blocks(l), b, l[o][j]);
  }

  /** merge_buddy, started at a free block that may have a free buddy, ends coalesced; the test of
      the list bound never decides anything, since merging happens only below the initial order. */
  lemma {:induction false} MergeKeepsState(l: Lists, base: nat, n: nat, o: nat, i: nat)
    requires MayMerge(l, base, n, o, i)
    ensures Settled(Merge(l, o, i), base, n)
    ensures Used(Blocks(Merge(l, o, i))) == Used(Blocks(l))
    decreases |l| - o
  {
    if Merges(l, o, i) {
      var m := MergeGoesOn(l, base, n, o, i);
      MergeKeepsState(m, base, n, o + 1, |m[o + 1]| - 1);
    } else {
      MergeStops(l, base, n, o, i);
    }
  }

  /** Every list the merge started at record i of list o reaches has order at most n. */
  ghost predicate StaysBelow(l: Lists, o: nat, i: nat, n: nat)
    decreases n - o
  {
    && o <= n < |l| && i < |l[o]| && !l[o][i].used
    && (Merges(l, o, i) ==>
          var j := IndexOfPage(l[o], Buddy(l[o][i].page, o));
          o < n && j != i && StaysBelow(Join(l, o, i, j), o + 1, |l[o + 1]|, n))
  }

  /** merge_buddy never goes above the initial order, so its list index stays in the array. */
  lemma {:induction false} MergeStaysBelow(l: Lists, base: nat, n: nat, o: nat, i: nat)
    requires MayMerge(l, base, n, o, i)
    ensures StaysBelow(l, o, i, n)
    decreases |l| - o
  {
    BelowTop(l, base, n, o, i);
    if Merges(l, o, i) {
      var m := MergeGoesOn(l, base, n, o, i);
      MergeStaysBelow(m, base, n, o + 1, |m[o + 1]| - 1);
    }
  }

  lemma BelowTop(l: Lists, base: nat, n: nat, o: nat, i: nat)
    requires State(l, base, n) && o < |l| && i < |l[o]|
    ensures o <= n
  {
    assert l[o][i] in Blocks(l);
  }

  lemma NoOrder(l: Lists, p: nat)
    requires WellFormed(l) && FindOrder(l, p, 0) == |l|
    ensures forall b :: b in Blocks(l) ==> b.page != p
  {
    forall b | b in Blocks(l) ensures b.page != p { InBlocks(l, b); }
  }

  lemma ClearFlag(l: Lists, base: nat, n: nat, o: nat, i: nat)
    requires Settled(l, base, n) && o < |l| && i < |l[o]|
    ensures var m := SetFlag(l, o, i, false);
            && MayMerge(m, base, n, o, i)
            && Used(Blocks(m)) == set b | b in Used(Blocks(l)) && b.page != l[o][i].page
  {
    var b := l[o][i];
    assert b in Blocks(l);
    FlagBlocks(l, o, i, false);
    FlagKeeps(Blocks(l), base, n, b, false);
    forall c | c in Blocks(l) && c != b ensures c.page != b.page {
      if c.page == b.page { SamePage(Blocks(l), base, n, b, c); }
    }
  }

  /** page_free keeps the invariant and takes out of use exactly the block that starts at p, if
      there is one; for any other address nothing that is in use changes. */
  lemma FreeCorrect(l: Lists, base: nat, n: nat, p: nat)
    requires Settled(l, base, n)
    ensures Settled(Free(l, p), base, n)
    ensures Used(Blocks(Free(l, p))) == set b | b in Used(Blocks(l)) && b.page != p
  {
    var o := FindOrder(l, p, 0);
    if o == |l| {
      NoOrder(l, p);
    } else {
      var i := IndexOfPage(l[o], p);
      ClearFlag(l, base, n, o, i);
      MergeKeepsState(SetFlag(l, o, i, false), base, n, o, i);
    }
  }

  /** Two histories that leave the same allocations live leave the same blocks. */
  lemma SameLiveSameBlocks(l: Lists, m: Lists, base: nat, n: nat)
    requires Settled(l, base, n) && Settled(m, base, n) && Used(Blocks(l)) == Used(Blocks(m))
    ensures Blocks(l) == Blocks(m)
  {
    Canonical(Blocks(l), Blocks(m), base, n);
  }

  /** page_free undoes page_alloc: every block is back, however many splits the call made. */
  lemma FreeUndoesAlloc(l: Lists, base: nat, n: nat, pages: nat)
    requires Settled(l, base, n) && Alloc(l, pages).1 != 0
    ensures var (m, r) := Alloc(l, pages); Blocks(Free(m, r)) == Blocks(l)
  {
    var (m, r) := Alloc(l, pages);
    AllocCorrect(l, base, n, pages);
    FreeCorrect(m, base, n, r);
    assert forall b :: b in Used(Blocks(l)) ==> b.page != r by {
      forall b | b in Used(Blocks(l)) ensures b.page != r {
        assert !b.Meets(r, PageOrder(pages));
      }
    }
    assert Used(Blocks(Free(m, r))) == Used(Blocks(l));
    SameLiveSameBlocks(Free(m, r), l, base, n);
  }

  // ---------------------------------------------------------------- runs

  datatype Op = PageAlloc(pages: nat) | PageFree(addr: nat)

  function Step(l: Lists, op: Op): (r: Lists)
    requires |l| == MAX_PAGE_ORDER + 1
    ensures |r| == |l|
  {
    match op
    case PageAlloc(k) => Alloc(l, k).0
    case PageFree(p) => Free(l, p)
  }

  function Run(l: Lists, ops: seq<Op>): (r: Lists)
    requires |l| == MAX_PAGE_ORDER + 1
    ensures |r| == |l|
    decreases |ops|
  {
    if ops == [] then l else Run(Step(l, ops[0]), ops[1..])
  }

  lemma {:induction false} RunAppend(l: Lists, xs: seq<Op>, ys: seq<Op>)
    requires |l| == MAX_PAGE_ORDER + 1
    ensures Run(l, xs + ys) == Run(Run(l, xs), ys)
    decreases |xs|
  {
    if xs == [] {
      assert xs + ys == ys;
    } else {
      var m, zs := Step(l, xs[0]), xs + ys;
      assert zs[0] == xs[0] && zs[1..] == xs[1..] + ys;
      RunAppend(m, xs[1..], ys);
      assert Run(l, xs) == Run(m, xs[1..]) && Run(l, zs) == Run(m, zs[1..]);
    }
  }

  /** c requests for a page. */
  function Singles(c: nat): (ops: seq<Op>)
    ensures |ops| == c
  {
    seq(c, i => PageAlloc(1))
  }

  lemma SinglesRun(l: Lists, c: nat, d: nat)
    requires |l| == MAX_PAGE_ORDER + 1
    ensures Singles(c + d) == Singles(c) + Singles(d)
    ensures Run(l, Singles(c + d)) == Run(Run(l, Singles(c)), Singles(d))
  {
    assert Singles(c + d) == Singles(c) + Singles(d);
    RunAppend(l, Singles(c), Singles(d));
  }

  lemma InitialSettled(base: nat, n: nat)
    requires 0 < base && n < MAX_PAGE_ORDER && Aligned(base, n)
    ensures Settled(Initial(base, n), base, n)
    ensures Blocks(Initial(base, n)) == {Whole(base, n)}
  {
    var l := Initial(base, n);
    assert l[n][0] == Whole(base, n);
    assert Blocks(l) == {Whole(base, n)};
    WholeTiles(base, n);
  }

  /** Safety over whole runs: after any sequence of calls the blocks are aligned, disjoint, cover
      exactly the initial range, and no two free buddies coexist. */
  lemma {:induction false} RunSettled(l: Lists, base: nat, n: nat, ops: seq<Op>)
    requires Settled(l, base, n)
    ensures Settled(Run(l, ops), base, n)
    decreases |ops|
  {
    if ops == [] {
    } else {
      match ops[0] {
        case PageAlloc(k) => AllocCorrect(l, base, n, k);
        case PageFree(p) => FreeCorrect(l, base, n, p);
      }
      RunSettled(Step(l, ops[0]), base, n, ops[1..]);
    }
  }

  /** Memory that page_alloc hands out after any run overlaps no live allocation. */
  lemma LiveNeverOverlap(base: nat, n: nat, ops: seq<Op>, pages: nat)
    requires 0 < base && n < MAX_PAGE_ORDER && Aligned(base, n)
    ensures var l := Run(Initial(base, n), ops); var (m, r) := Alloc(l, pages);
            r != 0 ==> && base <= r && r + PAGE_SIZE * pages <= base + Size(n)
                       && forall b :: b in Used(Blocks(l)) ==> b.End() <= r || r + PAGE_SIZE * pages <= b.page
  {
    InitialSettled(base, n);
    RunSettled(Initial(base, n), base, n, ops);
    var l := Run(Initial(base, n), ops);
    AllocCorrect(l, base, n, pages);
    var r := Alloc(l, pages).1;
    if r != 0 {
      var k := PageOrder(pages);
      assert PAGE_SIZE * pages <= Size(k);
      forall b | b in Used(Blocks(l)) ensures b.End() <= r || r + Size(k) <= b.page {
        assert !b.Meets(r, k);
      }
    }
  }

  /** A settled allocator with nothing in use is the initial one. */
  lemma NothingUsedInitial(l: Lists, base: nat, n: nat)
    requires Settled(l, base, n) && Used(Blocks(l)) == {}
    ensures l == Initial(base, n)
  {
    var w := Whole(base, n);
    NothingUsed(Blocks(l), base, n);
    assert w in Blocks(l);
    forall o | 0 <= o < |l| ensures l[o] == if o == n then [w] else [] { OnlyList(l, w, o); }
  }

  lemma OnlyList(l: Lists, w: Block, o: nat)
    requires WellFormed(l) && Blocks(l) == {w} && o < |l|
    ensures l[o] == if o == w.order then [w] else []
  {
    InBlocks(l, w);
    assert w in Blocks(l);
    forall i | 0 <= i < |l[o]| ensures l[o][i] == w { assert l[o][i] in Blocks(l); }
    assert l[o] != [] ==> l[o][0] == w && l[o][0].order == o;
    assert |l[o]| > 1 ==> l[o][0].page != l[o][1].page;
  }

  function FreeOps(ps: seq<nat>): (r: seq<Op>)
    ensures |r| == |ps|
  {
    seq(|ps|, i requires 0 <= i < |ps| => PageFree(ps[i]))
  }

  lemma {:induction false} FreeAllUsed(l: Lists, base: nat, n: nat, ps: seq<nat>)
    requires Settled(l, base, n)
    ensures Settled(Run(l, FreeOps(ps)), base, n)
    ensures Used(Blocks(Run(l, FreeOps(ps)))) == set b | b in Used(Blocks(l)) && b.page !in ps
    decreases |ps|
  {
    if ps == [] {
    } else {
      var m := Free(l, ps[0]);
      FreeCorrect(l, base, n, ps[0]);
      FreeAllUsed(m, base, n, ps[1..]);
      FreeOpsStep(l, ps);
      UsedWithout(Used(Blocks(l)), ps);
    }
  }

  lemma FreeOpsStep(l: Lists, ps: seq<nat>)
    requires |l| == MAX_PAGE_ORDER + 1 && ps != []
    ensures Run(l, FreeOps(ps)) == Run(Free(l, ps[0]), FreeOps(ps[1..]))
  {
    assert FreeOps(ps)[1..] == FreeOps(ps[1..]);
  }

  lemma UsedWithout(u: set<Block>, ps: seq<nat>)
    requires ps != []
    ensures (set b | b in (set c | c in u && c.page != ps[0]) && b.page !in ps[1..]) == set b | b in u && b.page !in ps
  {
    assert ps == [ps[0]] + ps[1..];
  }

  /** Once every live allocation has been freed, in any order and whatever else is passed to
      page_free besides, the allocator is back to the single initial block. */
  lemma AllFreedRestores(base: nat, n: nat, ops: seq<Op>, ps: seq<nat>)
    requires 0 < base && n < MAX_PAGE_ORDER && Aligned(base, n)
    requires forall b :: b in Used(Blocks(Run(Initial(base, n), ops))) ==> b.page in ps
    ensures Run(Run(Initial(base, n), ops), FreeOps(ps)) == Initial(base, n)
  {
    InitialSettled(base, n);
    RunSettled(Initial(base, n), base, n, ops);
    var l := Run(Initial(base, n), ops);
    FreeAllUsed(l, base, n, ps);
    assert Used(Blocks(Run(l, FreeOps(ps)))) == {};
    NothingUsedInitial(Run(l, FreeOps(ps)), base, n);
  }
}
