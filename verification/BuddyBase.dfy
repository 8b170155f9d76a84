/** What becomes of the page allocator when the range it is given does not start at a multiple of its
    size. The kernel's own boot passes an address that the linker aligns to a page. */
module BuddyBase {
  import opened Folding
  import opened Dyadic
  import opened BuddyTiling
  import opened BuddyLists
  import opened BuddyAsWritten
  import opened BuddyLosses

  // ---------------------------------------------------------------- the first page handed out

  lemma ModDouble(p: nat, s: nat)
    requires s > 0
    ensures p % (2 * s) == p % s + if (p / s) % 2 == 0 then 0 else s
    ensures (p + s) % s == p % s && (p >= s ==> (p - s) % s == p % s)
  {
    var q, r := p / s, p % s;
    var h := q / 2;
    assert p == q * s + r;
    assert (q + 1) * s == q * s + s && (q - 1) * s == q * s - s;
    DivUnique(p + s, s, q + 1, r);
    if p >= s {
      MulStrict(0, q, s) by { assert q == 0 ==> q * s == 0; }
      DivUnique(p - s, s, q - 1, r);
    }
    if q % 2 == 0 {
      assert h * (2 * s) == q * s by { assert q == h * 2; Twice(h, s); }
      DivUnique(p, 2 * s, h, r);
    } else {
      assert h * (2 * s) == q * s - s by { assert q == h * 2 + 1; Twice(h, s); }
      DivUnique(p, 2 * s, h, r + s);
    }
  }

  lemma Twice(h: nat, s: nat)
    ensures h * (2 * s) == (h * 2) * s && (h * 2 + 1) * s == (h * 2) * s + s
  {
  }

  /** Where splitting the block at p from order o down to a single page ends. */
  function TopPage(p: nat, o: nat): nat
    decreases o
  {
    if o == 0 then p else TopPage(Buddy(p, o - 1), o - 1)
  }

  lemma {:induction false} TopPageIs(p: nat, o: nat)
    requires p % PAGE_SIZE == 0
    ensures TopPage(p, o) == p + Size(o) - PAGE_SIZE - 2 * (p % Size(o))
    decreases o
  {
    if o == 0 {
      assert Size(0) == PAGE_SIZE;
    } else {
      var s := Size(o - 1);
      SizeDouble(o - 1);
      BuddyCases(p, o - 1);
      ModDouble(p, s);
      BuddyIsPage(p, o - 1);
      TopPageIs(Buddy(p, o - 1), o - 1);
    }
  }

  lemma BuddyIsPage(p: nat, k: nat)
    requires p % PAGE_SIZE == 0
    ensures Buddy(p, k) % PAGE_SIZE == 0
  {
    BuddyCases(p, k);
    var t, a := Pow2(k), p / PAGE_SIZE;
    assert Size(k) == PAGE_SIZE * t && p == PAGE_SIZE * a;
    assert Buddy(p, k) == PAGE_SIZE * (a + t) || Buddy(p, k) == PAGE_SIZE * (a - t);
  }

  /** Splitting down a list's last free block, whatever its alignment, ends at the top page. */
  lemma {:induction false} ReduceEndsAtTop(l: Lists, o: nat)
    requires o < |l| && LastFree(l[o]) >= 0
    ensures var r := Reduce(l, o, 0); r[0][LastFree(r[0])].page == TopPage(l[o][LastFree(l[o])].page, o)
    decreases o
  {
    if o == 0 {
    } else {
      ReduceEndsAtTop(Split(l, o), o - 1);
    }
  }

  /** The first page the allocator hands out, by where its range starts. It lies below the range
      exactly when the base is past the middle of a block of the range's size; with an aligned base
      it is the last page of the range. The code as written hands out the same page. */
  lemma FirstPage(base: nat, n: nat)
    requires n < MAX_PAGE_ORDER && base % PAGE_SIZE == 0
    ensures Alloc(Initial(base, n), 1).1 == base + Size(n) - PAGE_SIZE - 2 * (base % Size(n))
    ensures AllocAsWritten(Initial(base, n), 1) == Alloc(Initial(base, n), 1)
    ensures Alloc(Initial(base, n), 1).1 < base <==> 2 * (base % Size(n)) >= Size(n)
  {
    var l := Initial(base, n);
    SmallRequests();
    SearchStops(l, 0, n);
    AllocMeetsContract(l, 1);
    ReduceEndsAtTop(l, n);
    TopPageIs(base, n);
    HalfIsPages(base, n);
  }

  /** Twice an offset of whole pages is not one page short of a whole block. */
  lemma HalfIsPages(base: nat, n: nat)
    requires base % PAGE_SIZE == 0
    ensures 2 * (base % Size(n)) > Size(n) - PAGE_SIZE <==> 2 * (base % Size(n)) >= Size(n)
  {
    var r := base % Size(n);
    OffsetIsPages(base, Pow2(n));
    if n == 0 {
      assert Size(0) == PAGE_SIZE;
    } else {
      var t := Pow2(n - 1);
      assert Size(n) == 2 * (PAGE_SIZE * t);
    }
  }

  lemma OffsetIsPages(base: nat, c: nat)
    requires base % PAGE_SIZE == 0 && c > 0
    ensures (base % (PAGE_SIZE * c)) % PAGE_SIZE == 0
  {
    var b := base / PAGE_SIZE;
    var q, r := b / c, b % c;
    assert q * (PAGE_SIZE * c) == PAGE_SIZE * (q * c);
    assert b == q * c + r;
    DivUnique(base, PAGE_SIZE * c, q, PAGE_SIZE * r);
  }

  // ---------------------------------------------------------------- one page at a time

  /** Above the single pages every list has at most one record, a free one. */
  ghost predicate Tidy(l: Lists) {
    && |l| == MAX_PAGE_ORDER + 1 && l[MAX_PAGE_ORDER] == []
    && forall m :: 1 <= m < |l| ==> |l[m]| <= 1 && (l[m] != [] ==> !l[m][0].used)
  }

  /** Splitting the last free block of a list down to a page, over lists without a larger one, leaves
      one free block in each list between. */
  lemma {:induction false} ReduceToPage(l: Lists, o: nat, rest: seq<Block>, b: Block)
    requires 0 < o < |l| && l[o] == rest + [b] && !b.used && forall m :: 0 < m < o ==> l[m] == []
    ensures LastFree(l[o]) >= 0
    ensures var r := Reduce(l, o, 0);
            && |r| == |l| && r[o] == rest && (forall m :: o < m < |l| ==> r[m] == l[m])
            && (forall m :: 0 < m < o ==> |r[m]| == 1 && !r[m][0].used)
            && (o > 1 ==> r[o - 1] == [Block(b.page, o - 1, false)])
    decreases o
  {
    var m, lo, hi := SplitsLast(l, o, rest, b);
    if o > 1 {
      assert m[o - 1] == [lo] + [hi];
      ReduceToPage(m, o - 1, [lo], hi);
    }
  }

  lemma SplitsLast(l: Lists, o: nat, rest: seq<Block>, b: Block) returns (m: Lists, lo: Block, hi: Block)
    requires 0 < o < |l| && l[o] == rest + [b] && !b.used
    ensures LastFree(l[o]) == |rest| && m == Split(l, o) && m[o] == rest && m[o - 1] == l[o - 1] + [lo, hi]
    ensures lo == Block(b.page, o - 1, false) && !hi.used
    ensures forall q :: 0 <= q < |l| && q != o && q != o - 1 ==> m[q] == l[q]
  {
    m := Split(l, o);
    lo, hi := Block(b.page, o - 1, false), Block(Buddy(b.page, o - 1), o - 1, false);
  }

  /** Where the search for a single page stops. */
  lemma TidySearch(l: Lists, o: nat)
    requires Tidy(l) && FirstOrder(l, 0) == o
    ensures LastFree(l[0]) >= 0 ==> o == 0
    ensures LastFree(l[0]) < 0 && LastFree(l[o]) >= 0 ==> 0 < o && |l[o]| == 1 && LastFree(l[o]) == 0
    ensures forall m :: 0 < m < o && m < MAX_PAGE_ORDER ==> l[m] == []
    ensures forall m :: 1 <= m < |l| && LastFree(l[m]) < 0 ==> l[m] == []
  {
  }

  /** m is l with its one block of order o split down to a page that is handed out. */
  ghost predicate Opens(l: Lists, o: nat, m: Lists) {
    && 0 < o < |l| == |m| && |l[o]| == 1 && m[o] == []
    && (forall q :: o < q < |l| ==> m[q] == l[q])
    && (o > 1 ==> m[o - 1] == [Block(l[o][0].page, o - 1, false)])
    && exists b :: b in m[0] && b.used && b.page == TopPage(l[o][0].page, o)
  }

  /** Where the smallest block of tidy lists is split. */
  ghost predicate Smallest(l: Lists, o: nat) {
    Tidy(l) && LastFree(l[0]) < 0 && 0 < o < MAX_PAGE_ORDER && l[o] != [] && forall q :: 0 < q < o ==> l[q] == []
  }

  lemma TidySplit(l: Lists, o: nat) returns (m: Lists)
    requires Smallest(l, o)
    ensures m == Alloc(l, 1).0 && AllocGuard(l, 1) && Tidy(m) && Opens(l, o, m)
  {
    var r := SplitSmallest(l, o);
    SearchStops(l, 0, o);
    m := AllocOpens(l, o, r);
    assert m[0][LastFree(r[0])] in m[0];
  }

  lemma SplitSmallest(l: Lists, o: nat) returns (r: Lists)
    requires Smallest(l, o)
    ensures LastFree(l[o]) == 0 && |l[o]| == 1 && r == Reduce(l, o, 0) && |r| == |l| && LastFree(r[0]) >= 0 && r[o] == []
    ensures forall m :: o < m < |l| ==> r[m] == l[m]
    ensures forall m :: 0 < m < o ==> |r[m]| == 1 && !r[m][0].used
    ensures o > 1 ==> r[o - 1] == [Block(l[o][0].page, o - 1, false)]
    ensures r[0][LastFree(r[0])].page == TopPage(l[o][0].page, o)
  {
    assert l[o] == [] + [l[o][0]];
    ReduceToPage(l, o, [], l[o][0]);
    ReduceEndsAtTop(l, o);
    r := Reduce(l, o, 0);
  }

  lemma AllocOpens(l: Lists, o: nat, r: Lists) returns (m: Lists)
    requires |l| == MAX_PAGE_ORDER + 1 && FirstOrder(l, 0) == o < |l| && LastFree(l[o]) == 0 && |l[o]| == 1
    requires r == Reduce(l, o, 0) && LastFree(r[0]) >= 0
    ensures m == Alloc(l, 1).0 == SetFlag(r, 0, LastFree(r[0]), true) && AllocGuard(l, 1)
  {
    SmallRequests();
    m := Alloc(l, 1).0;
  }

  lemma TidyPage(l: Lists) returns (m: Lists)
    requires Tidy(l) && LastFree(l[0]) >= 0
    ensures m == Alloc(l, 1).0 && AllocGuard(l, 1) && m == SetFlag(l, 0, LastFree(l[0]), true)
    ensures Tidy(m) && LastFree(m[0]) < LastFree(l[0])
  {
    SmallRequests();
    SearchStops(l, 0, 0);
    m := SetFlag(l, 0, LastFree(l[0]), true);
  }

  lemma TidyNone(l: Lists)
    requires Tidy(l) && LastFree(l[0]) < 0 && forall o :: 0 < o < MAX_PAGE_ORDER ==> l[o] == []
    ensures l == Alloc(l, 1).0 && AllocGuard(l, 1)
  {
    SmallRequests();
    TidySearch(l, FirstOrder(l, 0));
  }

  // ---------------------------------------------------------------- many pages

  /** Some number of requests for a page lead from l to m, each meeting its guard; folded. */
  ghost predicate Leads(l: Lists, m: Lists) {
    && |l| == |m| == MAX_PAGE_ORDER + 1
    && forall z {:trigger Look(z)} :: Look(z) && z == PageCalls ==> exists c :: Guarded(l, Singles(c)) && Run(l, Singles(c)) == m
  }

  lemma LeadsNowhere(l: Lists)
    requires |l| == MAX_PAGE_ORDER + 1
    ensures Leads(l, l)
  {
    assert Singles(0) == [];
  }

  lemma LeadsBy(l: Lists, m: Lists)
    requires |l| == |m| == MAX_PAGE_ORDER + 1 && m == Alloc(l, 1).0 && AllocGuard(l, 1)
    ensures Guarded(l, Singles(1)) && Run(l, Singles(1)) == m && Leads(l, m)
  {
    OneSingle();
    PageRequestLeads(l, PageAlloc(1), 1, m);
  }

  lemma OneSingle()
    ensures Singles(1) == [PageAlloc(1)]
  {
  }

  lemma PageRequestLeads(l: Lists, op: Op, c: nat, m: Lists)
    requires |l| == |m| == MAX_PAGE_ORDER + 1 && op.PageAlloc? && Singles(c) == [op]
    requires m == Alloc(l, op.pages).0 && AllocGuard(l, op.pages)
    ensures Guarded(l, Singles(c)) && Run(l, Singles(c)) == m && Leads(l, m)
  {
    AllocIsStep(l, op, m);
    RunsOne(l, op, Singles(c), m);
    LeadsIn(l, c, m);
  }

  lemma AllocIsStep(l: Lists, op: Op, m: Lists)
    requires |l| == MAX_PAGE_ORDER + 1 && op.PageAlloc? && m == Alloc(l, op.pages).0
    ensures m == Step(l, op)
  {
  }

  lemma LeadsIn(l: Lists, c: nat, m: Lists)
    requires |l| == |m| == MAX_PAGE_ORDER + 1 && Guarded(l, Singles(c)) && Run(l, Singles(c)) == m
    ensures Leads(l, m)
  {
  }

  lemma RunsOne(l: Lists, op: Op, ops: seq<Op>, m: Lists)
    requires |l| == MAX_PAGE_ORDER + 1 && op.PageAlloc? && ops == [op] && m == Step(l, op) && AllocGuard(l, op.pages)
    ensures Guarded(l, ops) && Run(l, ops) == m
  {
    assert ops[1..] == [];
    assert Run(m, []) == m && Guarded(m, []);
  }

  lemma LeadsOn(l: Lists, m: Lists, r: Lists)
    requires Leads(l, m) && Leads(m, r)
    ensures Leads(l, r)
  {
    assert Look(PageCalls);
    var c :| Guarded(l, Singles(c)) && Run(l, Singles(c)) == m;
    var d :| Guarded(m, Singles(d)) && Run(m, Singles(d)) == r;
    SinglesAppend(l, c, d);
  }

  lemma SinglesAppend(l: Lists, c: nat, d: nat)
    requires |l| == MAX_PAGE_ORDER + 1
    ensures Run(l, Singles(c + d)) == Run(Run(l, Singles(c)), Singles(d)) && Singles(c + d) == Singles(c) + Singles(d)
    ensures Guarded(l, Singles(c + d)) <==> Guarded(l, Singles(c)) && Guarded(Run(l, Singles(c)), Singles(d))
  {
    SinglesRun(l, c, d);
    GuardedAppend(l, Singles(c), Singles(d));
  }

  /** What is smaller than order j is gone, and nothing from there on has changed. */
  ghost predicate Emptied(l: Lists, j: nat, m: Lists) {
    && 0 < j < |l| == |m| && LastFree(m[0]) < 0
    && (forall q :: 0 < q < j ==> m[q] == []) && (forall q :: j <= q < |l| ==> m[q] == l[q])
  }

  lemma {:induction false} EmptyPages(l: Lists) returns (m: Lists)
    requires Tidy(l)
    ensures Leads(l, m) && Tidy(m) && Emptied(l, 1, m)
    decreases LastFree(l[0])
  {
    if LastFree(l[0]) < 0 {
      m := l;
      LeadsNowhere(l);
    } else {
      var t := TakePage(l);
      m := EmptyPages(t);
      LeadsOn(l, t, m);
    }
  }

  lemma TakePage(l: Lists) returns (m: Lists)
    requires Tidy(l) && LastFree(l[0]) >= 0
    ensures Leads(l, m) && Tidy(m) && LastFree(m[0]) < LastFree(l[0]) && forall q :: 1 <= q < |l| ==> m[q] == l[q]
  {
    m := TidyPage(l);
    LeadsBy(l, m);
  }

  lemma OpenSmallest(l: Lists, o: nat) returns (m: Lists)
    requires Smallest(l, o)
    ensures Leads(l, m) && Tidy(m) && Opens(l, o, m)
  {
    m := TidySplit(l, o);
    LeadsBy(l, m);
  }

  /** Enough requests for a page empty all lists below order j, and touch no other. */
  lemma {:induction false} EmptyBelow(l: Lists, j: nat) returns (m: Lists)
    requires Tidy(l) && 0 < j < MAX_PAGE_ORDER
    ensures Leads(l, m) && Tidy(m) && Emptied(l, j, m)
    decreases j
  {
    if j == 1 {
      m := EmptyPages(l);
    } else {
      var t := EmptyBelow(l, j - 1);
      m := t;
      if t[j - 1] != [] {
        var r := OpenSmallest(t, j - 1);
        m := EmptyBelow(r, j - 1);
        LeadsOn(t, r, m);
        LeadsOn(l, t, m);
      }
    }
  }

  // ---------------------------------------------------------------- every run

  /** Some block in use reaches outside the range. */
  ghost predicate Strays(l: Lists, base: nat, n: nat) {
    exists b :: b in Used(Blocks(l)) && (b.page < base || b.End() > base + Size(n))
  }

  /** All memory below the block at base, of order j, has been handed out. */
  ghost predicate Reached(l: Lists, base: nat, j: nat) {
    Smallest(l, j) && l[j] == [Block(base, j, false)]
  }

  lemma {:induction false} Reaches(base: nat, n: nat, j: nat, l: Lists) returns (m: Lists)
    requires 0 < j <= n < MAX_PAGE_ORDER && l == Initial(base, n)
    ensures Leads(l, m) && Reached(m, base, j)
    decreases n - j
  {
    if j == n {
      m := l;
      LeadsNowhere(l);
    } else {
      var t := Reaches(base, n, j + 1, l);
      var r := OpenSmallest(t, j + 1);
      m := EmptyBelow(r, j);
      LeadsOn(t, r, m);
      LeadsOn(l, t, m);
    }
  }

  /** The lowest order at which a page-aligned base is not aligned. */
  lemma {:induction false} FirstMisaligned(base: nat, n: nat) returns (k: nat)
    requires Aligned(base, 0) && !Aligned(base, n)
    ensures k < n && Aligned(base, k) && !Aligned(base, k + 1)
    decreases n
  {
    if Aligned(base, n - 1) {
      k := n - 1;
    } else {
      k := FirstMisaligned(base, n - 1);
    }
  }

  /** From a misaligned base the block of the order at which the alignment fails is reached, and its
      first page handed out is the one before the base. */
  lemma PageBefore(base: nat, n: nat, l: Lists) returns (m: Lists)
    requires 0 < base && n < MAX_PAGE_ORDER && Aligned(base, 0) && !Aligned(base, n) && l == Initial(base, n)
    ensures Leads(l, m) && Strays(m, base, n)
  {
    var k := FirstMisaligned(base, n);
    var t := Reaches(base, n, k + 1, l);
    m := OpenSmallest(t, k + 1);
    LeadsOn(l, t, m);
    BeforeBase(base, k);
    var b: Block :| b in m[0] && b.used && b.page == TopPage(base, k + 1);
    assert b in Used(Blocks(m));
  }

  lemma BeforeBase(base: nat, k: nat)
    requires 0 < base && Aligned(base, 0) && Aligned(base, k) && !Aligned(base, k + 1)
    ensures TopPage(base, k + 1) < base
  {
    assert Size(0) == PAGE_SIZE;
    TopPageIs(base, k + 1);
    SizeDouble(k);
    ModDouble(base, Size(k));
  }

  lemma TidyRequest(l: Lists) returns (m: Lists)
    requires Tidy(l)
    ensures m == Alloc(l, 1).0 && AllocGuard(l, 1) && Tidy(m)
  {
    if LastFree(l[0]) >= 0 {
      m := TidyPage(l);
    } else if o: nat :| Smallest(l, o) {
      m := TidySplit(l, o);
    } else {
      NoneBelow(l, MAX_PAGE_ORDER);
      TidyNone(l);
      m := l;
    }
  }

  lemma {:induction false} NoneBelow(l: Lists, j: nat)
    requires Tidy(l) && LastFree(l[0]) < 0 && j <= MAX_PAGE_ORDER && forall o: nat :: !Smallest(l, o)
    ensures forall o :: 0 < o < j ==> l[o] == []
    decreases j
  {
    if j > 0 {
      NoneBelow(l, j - 1);
      assert !Smallest(l, j - 1);
    }
  }

  /** c requests for a page meet their guards; folded. */
  ghost predicate Guards(l: Lists, c: nat) {
    |l| == MAX_PAGE_ORDER + 1 && forall z {:trigger Look(z)} :: Look(z) && z == PageCalls ==> Guarded(l, Singles(c))
  }

  lemma GuardsNone(l: Lists)
    requires |l| == MAX_PAGE_ORDER + 1
    ensures Guards(l, 0)
  {
    assert Singles(0) == [];
  }

  /** One request is guarded, and then c more are. */
  lemma GuardsNext(l: Lists, m: Lists, c: nat)
    requires Tidy(l) && m == Alloc(l, 1).0 && AllocGuard(l, 1) && Guards(m, c)
    ensures Guards(l, 1 + c)
  {
    assert Look(PageCalls);
    LeadsBy(l, m);
    SinglesAppend(l, 1, c);
  }

  /** From tidy lists every request for a page meets its guard. */
  lemma {:induction false} SinglesGuarded(l: Lists, c: nat)
    requires Tidy(l)
    ensures Guards(l, c)
    decreases c
  {
    if c == 0 {
      GuardsNone(l);
    } else {
      var m := TidyRequest(l);
      SinglesGuarded(m, c - 1);
      GuardsNext(l, m, c - 1);
    }
  }

  /** Alignment of the base to the size of the range is exactly what keeps every run inside the
      range: without it some run of requests has memory in use that lies below the base. */
  lemma InRangeMeansAligned(base: nat, n: nat)
    requires 0 < base && n < MAX_PAGE_ORDER && base % PAGE_SIZE == 0
    ensures StaysIn(base, n) <==> Aligned(base, n)
  {
    if Aligned(base, n) {
      AlignedStays(base, n);
    } else {
      var c := MisalignedStrays(base, n);
    }
  }

  /** No run from one block of order n at base has memory in use outside it. */
  ghost predicate StaysIn(base: nat, n: nat)
    requires n < MAX_PAGE_ORDER
  {
    forall ops :: !Strays(Run(Initial(base, n), ops), base, n)
  }

  lemma AlignedStays(base: nat, n: nat)
    requires 0 < base && n < MAX_PAGE_ORDER && Aligned(base, n)
    ensures StaysIn(base, n)
  {
    var l := Initial(base, n);
    InitialSettled(base, n);
    forall ops ensures !Strays(Run(l, ops), base, n) {
      RunSettled(l, base, n, ops);
      SettledStays(Run(l, ops), base, n);
    }
  }

  lemma SettledStays(l: Lists, base: nat, n: nat)
    requires Settled(l, base, n)
    ensures !Strays(l, base, n)
  {
  }

  lemma MisalignedStrays(base: nat, n: nat) returns (c: nat)
    requires 0 < base && n < MAX_PAGE_ORDER && base % PAGE_SIZE == 0 && !Aligned(base, n)
    ensures Strays(Run(Initial(base, n), Singles(c)), base, n)
  {
    assert Size(0) == PAGE_SIZE;
    var l := Initial(base, n);
    var m := PageBefore(base, n, l);
    assert Look(PageCalls);
    c :| Run(l, Singles(c)) == m;
  }

  lemma SinglesAsWritten(base: nat, n: nat, c: nat)
    requires n < MAX_PAGE_ORDER
    ensures RunAsWritten(Initial(base, n), Singles(c)) == Run(Initial(base, n), Singles(c))
  {
    var l := Initial(base, n);
    SinglesGuarded(l, c);
    assert Look(PageCalls);
    GuardedRun(l, base, n, Singles(c));
  }

  /** The same of the code as written, already for requests of one page each. */
  lemma PagesInRangeAsWritten(base: nat, n: nat)
    requires 0 < base && n < MAX_PAGE_ORDER && base % PAGE_SIZE == 0
    ensures (forall c :: !Strays(RunAsWritten(Initial(base, n), Singles(c)), base, n)) <==> Aligned(base, n)
  {
    if Aligned(base, n) {
      AlignedStays(base, n);
      forall c ensures !Strays(RunAsWritten(Initial(base, n), Singles(c)), base, n) {
        SinglesAsWritten(base, n, c);
      }
    } else {
      var c := MisalignedStrays(base, n);
      SinglesAsWritten(base, n, c);
    }
  }
}
