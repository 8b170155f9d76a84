/** kmalloc and kfree as steps of one system: the object lists of slub.c over the page blocks of
    page_alloc.c. The invariant of every run, and what each call does to the live regions. */
module Kmalloc {
  import opened Folding
  import opened Dyadic
  import opened BuddyTiling
  import opened Slub
  import Buddy = BuddyLists

  /** Fault: the kernel uses a null pointer as memory, or indexes past an array. */
  datatype Outcome<+T> = Done(value: T) | Fault

  type Pages = l: Buddy.Lists | |l| == Buddy.MAX_PAGE_ORDER + 1
    witness seq(Buddy.MAX_PAGE_ORDER + 1, i => [])

  /** The page allocator's lists, the object lists, the slabs, and each core's metadata page. */
  datatype Sys = Sys(pages: Pages, objs: Lists, slabs: Slabs, meta: map<nat, nat>)

  function Boot(base: nat, n: nat): Sys
    requires n < Buddy.MAX_PAGE_ORDER
  {
    Sys(Buddy.Initial(base, n), map[], map[], map[])
  }

  // ---------------------------------------------------------------- the operations

  /** The two calls of the page allocator. What they compute is kept folded: a proof that needs it
      looks inside, through the two lemmas. */
  ghost predicate Allocs(l: Pages, pages: nat, m: Pages, r: nat) {
    forall z {:trigger Look(z)} :: Look(z) && z == PageCalls ==> Buddy.Alloc(l, pages) == (m, r)
  }

  ghost predicate Frees(l: Pages, a: nat, m: Pages) {
    forall z {:trigger Look(z)} :: Look(z) && z == PageCalls ==> Buddy.Free(l, a) == m
  }

  ghost function PageAlloc(l: Pages, pages: nat): (Pages, nat) {
    assert Allocs(l, pages, Buddy.Alloc(l, pages).0, Buddy.Alloc(l, pages).1);
    var m, r :| Allocs(l, pages, m, r); (m, r)
  }

  ghost function PageFree(l: Pages, a: nat): Pages {
    assert Frees(l, a, Buddy.Free(l, a));
    var m :| Frees(l, a, m); m
  }

  lemma PageAllocIs(l: Pages, pages: nat)
    ensures PageAlloc(l, pages) == Buddy.Alloc(l, pages)
  {
    assert Look(PageCalls);
  }

  lemma PageFreeIs(l: Pages, a: nat)
    ensures PageFree(l, a) == Buddy.Free(l, a)
  {
    assert Look(PageCalls);
  }

  /** page_alloc(1), whose failure slub.c does not survive. */
  ghost function TakePage(l: Pages): Outcome<(Pages, nat)> {
    var (m, r) := PageAlloc(l, 1);
    if r == 0 then Fault else Done((m, r))
  }

  /** The page that a core's descriptors are stored in, taken on first use. */
  ghost function WithRecords(s: Sys, core: nat): Outcome<Sys> {
    if core in s.meta then Done(s) else
    match TakePage(s.pages)
    case Fault => Fault
    case Done((m, r)) => Done(s.(pages := m, meta := s.meta[core := r]))
  }

  /** kmem_create_cache for a core's own cache of order k: one page, carved up. */
  ghost function AddSlab(s: Sys, core: nat, k: nat): Outcome<Sys> {
    match TakePage(s.pages)
    case Fault => Fault
    case Done((m, r)) => Done(s.(pages := m, objs := s.objs[Home(core, k) := Carve(r, k, core)],
                                 slabs := s.slabs[r := Slab(k, core)]))
  }

  lemma AddSlabIs(s: Sys, core: nat, k: nat, l: Pages, r: nat)
    requires TakePage(s.pages) == Done((l, r))
    ensures AddSlab(s, core, k) == Done(Sys(l, s.objs[Home(core, k) := Carve(r, k, core)], s.slabs[r := Slab(k, core)], s.meta))
  {
  }

  ghost function AddSlabs(s: Sys, core: nat, k: nat): Outcome<Sys>
    requires k <= MAX_ORDER + 1
    decreases MAX_ORDER + 1 - k
  {
    if k > MAX_ORDER then Done(s) else
    match AddSlab(s, core, k)
    case Fault => Fault
    case Done(m) => AddSlabs(m, core, k + 1)
  }

  /** kmem_init_caches */
  ghost function InitCaches(s: Sys, core: nat): Outcome<Sys> {
    match WithRecords(s, core)
    case Fault => Fault
    case Done(m) => AddSlabs(m, core, MIN_ORDER)
  }

  /** The core has its caches: the test slub_alloc makes. */
  predicate Ready(s: Sys, core: nat) { Home(core, MIN_ORDER) in s.objs }

  /** Takes the last object of the core's cache to the end of the task's list. */
  function TakeObj(s: Sys, core: nat, task: nat, k: nat): (Sys, nat) {
    var h := Home(core, k);
    var c := At(s.objs, h);
    if c == [] then (s, 0)
    else (s.(objs := Move(s.objs, h, |c| - 1, Owned(task))), c[|c| - 1].addr)
  }

  ghost function SlubAlloc(s: Sys, core: nat, task: nat, size: nat): Outcome<(Sys, nat)> {
    match if Ready(s, core) then Done(s) else InitCaches(s, core)
    case Fault => Fault
    case Done(m) => if !Served(ObjOrder(size)) then Fault else Done(TakeObj(m, core, task, ObjOrder(size)))
  }

  function PagesFor(size: nat): nat {
    size / PAGE_SIZE + (if size % PAGE_SIZE != 0 then 1 else 0)
  }

  ghost function Kmalloc(s: Sys, core: nat, task: nat, size: nat): Outcome<(Sys, nat)> {
    if size >= PAGE_SIZE then
      var (m, r) := PageAlloc(s.pages, PagesFor(size));
      Done((s.(pages := m), r))
    else
      SlubAlloc(s, core, task, size)
  }

  /** Whether the task's list has an object at a. */
  predicate Owns(s: Sys, task: nat, a: nat) {
    Find(At(s.objs, Owned(task)), a) >= 0
  }

  /** Where a freed object goes: the cache it came from when its own core frees it, otherwise the
      freeing core's cache for its page. */
  function HomeOf(o: Obj, core: nat): Place {
    if o.home == core then Home(core, o.order) else Stray(core, o.order, o.Page())
  }

  ghost function SlubFree(s: Sys, core: nat, task: nat, a: nat): Outcome<Sys>
    requires Owns(s, task, a)
  {
    var i := Find(s.objs[Owned(task)], a);
    var q := HomeOf(s.objs[Owned(task)][i], core);
    match if q in s.objs || q.Home? then Done(s) else WithRecords(s, core)
    case Fault => Fault
    case Done(m) => Done(m.(objs := Move(s.objs, Owned(task), i, q)))
  }

  /** slub_free in two steps: the object leaves the task's list, then it is reclaimed. */
  lemma FreeInSteps(s: Sys, core: nat, task: nat, a: nat)
    requires Owns(s, task, a)
    ensures var p, i := Owned(task), Find(s.objs[Owned(task)], a); var o := s.objs[p][i]; var q := HomeOf(o, core);
            var r := s.(objs := s.objs[p := Buddy.Cut(s.objs[p], i)]);
            var t := if q in r.objs || q.Home? then Done(r) else WithRecords(r, core);
            SlubFree(s, core, task, a) == match t case Fault => Fault
                                          case Done(m) => Done(m.(objs := r.objs[q := At(r.objs, q) + [o]]))
  {
    var p, i := Owned(task), Find(s.objs[Owned(task)], a);
    var q := HomeOf(s.objs[p][i], core);
    assert p != q;
  }

  ghost function Kfree(s: Sys, core: nat, task: nat, a: nat): Outcome<Sys> {
    if a == 0 then Done(s)
    else if Owns(s, task, a) then SlubFree(s, core, task, a)
    else Done(s.(pages := PageFree(s.pages, a)))
  }

  // ---------------------------------------------------------------- the invariant

  /** The pages the object layer keeps for itself. */
  function Reserved(s: Sys): set<nat> { s.slabs.Keys + s.meta.Values }

  /** Each such page is a one-page block in use, and serves one purpose. */
  ghost predicate Backed(u: set<Block>, slabs: Slabs, meta: map<nat, nat>) {
    && (forall p :: p in slabs ==> Block(p, 0, true) in u)
    && (forall c :: c in meta ==> Block(meta[c], 0, true) in u && meta[c] !in slabs)
    && (forall c, d :: c in meta && d in meta && meta[c] == meta[d] ==> c == d)
  }

  ghost function InUse(s: Sys): set<Block> { Used(Buddy.Blocks(s.pages)) }

  /** The core has its own caches exactly for the orders below k. */
  ghost predicate CachesBelow(s: Sys, core: nat, k: nat) {
    && (forall j: nat :: Home(core, j) in s.objs <==> MIN_ORDER <= j < k)
    && (k > MIN_ORDER ==> core in s.meta)
  }

  /** All of the core's caches exist, or none and no slab of its. */
  ghost predicate CoreOk(s: Sys, core: nat) {
    || CachesBelow(s, core, MAX_ORDER + 1)
    || (CachesBelow(s, core, MIN_ORDER) && forall p :: p in s.slabs ==> s.slabs[p].home != core)
  }

  /** Buddy.Settled, kept folded: a proof that needs what it says looks inside first. */
  ghost predicate Settled(l: Pages, base: nat, n: nat) {
    forall z {:trigger Look(z)} :: Look(z) && z == PageLists ==> Buddy.Settled(l, base, n)
  }

  /** Placed, kept folded in the same way. */
  ghost predicate Kept(objs: Lists, slabs: Slabs) {
    forall z {:trigger Look(z)} :: Look(z) && z == ObjectLists ==> Placed(objs, slabs)
  }

  ghost predicate Layered(s: Sys, base: nat, n: nat) {
    Settled(s.pages, base, n) && Backed(InUse(s), s.slabs, s.meta) && Kept(s.objs, s.slabs)
  }

  ghost predicate Inv(s: Sys, base: nat, n: nat) {
    Layered(s, base, n) && forall c :: CoreOk(s, c)
  }

  // ---------------------------------------------------------------- live memory

  datatype Region = Region(lo: nat, hi: nat) {
    predicate Apart(that: Region) { hi <= that.lo || that.hi <= lo }
  }

  function PageRegion(b: Block): Region { Region(b.page, b.End()) }

  function ObjRegion(o: Obj): Region { Region(o.addr, o.End()) }

  ghost function LiveBlocks(s: Sys): set<Block> {
    set b | b in InUse(s) && b.page !in Reserved(s)
  }

  ghost function LiveObjs(s: Sys): set<Obj> {
    set p, o | p in s.objs.Keys && p.Owned? && o in s.objs[p] :: o
  }

  /** What callers hold: page blocks that are not the object layer's own, and owned objects. */
  ghost function Live(s: Sys): set<Region> {
    (set b | b in LiveBlocks(s) :: PageRegion(b)) + (set o | o in LiveObjs(s) :: ObjRegion(o))
  }

  /** Every slab object lies in a one-page block in use. */
  lemma ObjInSlab(s: Sys, base: nat, n: nat, o: Obj)
    requires Layered(s, base, n) && Slot(s.slabs, o)
    ensures Block(o.Page(), 0, true) in InUse(s)
    ensures o.Page() <= o.addr < o.End() <= o.Page() + PAGE_SIZE == Block(o.Page(), 0, true).End()
  {
    assert Look(ObjectLists);
    SlotInPage(s.slabs, o);
    assert o.Page() in Reserved(s);
    assert Size(0) == PAGE_SIZE;
  }

  /** A slot is apart from every other slot and from the page blocks callers hold. */
  lemma ObjApart(s: Sys, base: nat, n: nat, o: Obj)
    requires Layered(s, base, n) && Slot(s.slabs, o)
    ensures forall q :: Slot(s.slabs, q) && q != o ==> ObjRegion(o).Apart(ObjRegion(q))
    ensures forall b :: b in LiveBlocks(s) ==> PageRegion(b).Apart(ObjRegion(o))
  {
    assert Look(ObjectLists);
    forall q | Slot(s.slabs, q) && q != o ensures ObjRegion(o).Apart(ObjRegion(q)) { SlotsApart(s.slabs, o, q); }
    ObjInSlab(s, base, n, o);
    forall b | b in LiveBlocks(s) ensures PageRegion(b).Apart(ObjRegion(o)) {
      BlocksApart(s, base, n, b, Block(o.Page(), 0, true));
    }
  }

  lemma BlocksApart(s: Sys, base: nat, n: nat, b: Block, c: Block)
    requires Settled(s.pages, base, n) && b in InUse(s) && c in InUse(s) && b != c
    ensures b.Apart(c)
  {
    assert Look(PageLists);
  }

  /** All live regions, from both allocators, are pairwise disjoint. */
  lemma LiveApart(s: Sys, base: nat, n: nat)
    requires Layered(s, base, n)
    ensures forall x, y :: x in Live(s) && y in Live(s) && x != y ==> x.Apart(y)
  {
    forall b, c | b in LiveBlocks(s) && c in LiveBlocks(s) && b != c ensures b.Apart(c) {
      BlocksApart(s, base, n, b, c);
    }
    forall o | o in LiveObjs(s)
      ensures forall q :: q in LiveObjs(s) && q != o ==> ObjRegion(o).Apart(ObjRegion(q))
      ensures forall b :: b in LiveBlocks(s) ==> PageRegion(b).Apart(ObjRegion(o)) {
      assert Look(ObjectLists);
      assert Slot(s.slabs, o);
      ObjApart(s, base, n, o);
    }
  }

  // ---------------------------------------------------------------- taking pages

  /** The page at a is inside the range and meets no block in use. */
  ghost predicate FreePage(u: set<Block>, base: nat, n: nat, a: nat) {
    && a % PAGE_SIZE == 0 && base <= a && a + PAGE_SIZE <= base + Size(n)
    && forall b :: b in u ==> a + PAGE_SIZE <= b.page || b.End() <= a
  }

  ghost function FreePages(u: set<Block>, base: nat, n: nat): set<nat> {
    set a | base <= a < base + Size(n) && FreePage(u, base, n, a)
  }

  ghost function FreeCount(s: Sys, base: nat, n: nat): nat { |FreePages(InUse(s), base, n)| }

  lemma OnePage(a: nat)
    ensures Buddy.PageOrder(1) == 0 && Size(0) == PAGE_SIZE && (Aligned(a, 0) <==> a % PAGE_SIZE == 0)
  {
    assert Pow2(0) == 1;
  }

  lemma FreePageIsRun(s: set<Block>, base: nat, n: nat, a: nat)
    ensures FreePage(Used(s), base, n, a) <==> FreeRun(s, base, n, a, 0)
  {
    OnePage(a);
    forall b | b in s && b.used ensures b in Used(s) {}
  }

  /** A page taken is one page less. */
  lemma UsePage(u: set<Block>, base: nat, n: nat, r: nat)
    requires FreePage(u, base, n, r)
    ensures r in FreePages(u, base, n)
    ensures FreePages(u + {Block(r, 0, true)}, base, n) == FreePages(u, base, n) - {r}
  {
    OnePage(r);
    var b := Block(r, 0, true);
    assert b.End() == r + PAGE_SIZE;
    forall a: nat | a % PAGE_SIZE == 0
      ensures FreePage(u + {b}, base, n, a) <==> FreePage(u, base, n, a) && a != r {
      PagesApart(a, r);
      assert b in u + {b};
    }
  }

  lemma PagesApart(a: nat, r: nat)
    requires a % PAGE_SIZE == 0 && r % PAGE_SIZE == 0
    ensures a == r || a + PAGE_SIZE <= r || r + PAGE_SIZE <= a
  {
  }

  /** Taking a page succeeds exactly when one is free, and uses up that one page. */
  lemma TakePageCorrect(l: Pages, base: nat, n: nat)
    requires Settled(l, base, n)
    ensures TakePage(l).Fault? <==> FreePages(Used(Buddy.Blocks(l)), base, n) == {}
    ensures TakePage(l).Done? ==> var (m, r) := TakePage(l).value;
              && Settled(m, base, n) && 0 < r
              && Used(Buddy.Blocks(m)) == Used(Buddy.Blocks(l)) + {Block(r, 0, true)}
              && FreePage(Used(Buddy.Blocks(l)), base, n, r)
  {
    OnePage(0);
    PageAllocIs(l, 1);
    var (m, r) := PageAlloc(l, 1);
    TakesOne(l, base, n, 1, m, r);
  }

  lemma TakesOne(l: Pages, base: nat, n: nat, pages: nat, m: Pages, r: nat)
    requires pages == 1 && Settled(l, base, n) && Buddy.Alloc(l, pages) == (m, r) && Buddy.PageOrder(pages) == 0
    ensures r == 0 <==> FreePages(Used(Buddy.Blocks(l)), base, n) == {}
    ensures r != 0 ==> && Settled(m, base, n) && Used(Buddy.Blocks(m)) == Used(Buddy.Blocks(l)) + {Block(r, 0, true)}
                       && FreePage(Used(Buddy.Blocks(l)), base, n, r)
  {
    assert Look(PageLists);
    Buddy.AllocCorrect(l, base, n, pages);
    if r == 0 {
      NoFreePage(Buddy.Blocks(l), base, n);
    } else {
      FreePageIsRun(Buddy.Blocks(l), base, n, r);
      assert r in FreePages(Used(Buddy.Blocks(l)), base, n);
    }
  }

  lemma NoFreePage(s: set<Block>, base: nat, n: nat)
    requires forall a :: !FreeRun(s, base, n, a, 0)
    ensures FreePages(Used(s), base, n) == {}
  {
    forall a ensures !FreePage(Used(s), base, n, a) { FreePageIsRun(s, base, n, a); }
  }

  /** A page just taken is not yet any slab or metadata page, and no block in use starts there. */
  lemma TakenIsNew(u: set<Block>, slabs: Slabs, meta: map<nat, nat>, base: nat, n: nat, r: nat)
    requires Backed(u, slabs, meta) && FreePage(u, base, n, r)
    ensures r !in slabs && r !in meta.Values && forall b :: b in u ==> b.page != r
  {
  }

  // ---------------------------------------------------------------- growing the object layer

  /** m has all of s's slabs and metadata pages, and the same live memory; only core may differ in
      its caches. */
  ghost predicate Grows(s: Sys, m: Sys, core: nat) {
    && LiveBlocks(m) == LiveBlocks(s)
    && s.meta.Keys <= m.meta.Keys
    && (forall p :: p in s.slabs ==> p in m.slabs && m.slabs[p] == s.slabs[p])
    && (forall p :: p in m.slabs && p !in s.slabs ==> m.slabs[p].home == core)
    && (forall q: Place :: (q.Home? ==> q.core != core) ==>
          (q in m.objs <==> q in s.objs) && (q in s.objs ==> m.objs[q] == s.objs[q]))
  }

  /** m is s after one more page, r, has been taken out of the free ones and reserved. */
  ghost predicate Reserves(s: Sys, m: Sys, base: nat, n: nat, r: nat) {
    && Settled(m.pages, base, n) && InUse(m) == InUse(s) + {Block(r, 0, true)}
    && FreePage(InUse(s), base, n, r) && 0 < r
    && Reserved(m) == Reserved(s) + {r}
  }

  lemma ReservesKeeps(s: Sys, m: Sys, base: nat, n: nat, r: nat)
    requires Layered(s, base, n) && Reserves(s, m, base, n, r)
    ensures LiveBlocks(m) == LiveBlocks(s)
    ensures r !in s.slabs && r !in s.meta.Values
    ensures FreeCount(m, base, n) == FreeCount(s, base, n) - 1
  {
    TakenIsNew(InUse(s), s.slabs, s.meta, base, n, r);
    UsePage(InUse(s), base, n, r);
  }

  lemma MetaTaken(s: Sys, m: Sys, base: nat, n: nat, core: nat, r: nat)
    requires Layered(s, base, n) && core !in s.meta && Reserves(s, m, base, n, r)
    requires m.objs == s.objs && m.slabs == s.slabs && m.meta == s.meta[core := r]
    ensures Layered(m, base, n) && Grows(s, m, core)
  {
    ReservesKeeps(s, m, base, n, r);
    MetaBacked(InUse(s), s.slabs, s.meta, core, r);
  }

  lemma SlabTaken(s: Sys, m: Sys, base: nat, n: nat, core: nat, k: nat, r: nat)
    requires Layered(s, base, n) && Served(k) && Home(core, k) !in s.objs && Reserves(s, m, base, n, r)
    requires m.objs == s.objs[Home(core, k) := Carve(r, k, core)]
    requires m.slabs == s.slabs[r := Slab(k, core)] && m.meta == s.meta
    ensures Layered(m, base, n) && Grows(s, m, core)
  {
    ReservesKeeps(s, m, base, n, r);
    assert Look(ObjectLists);
    AddSlabKeepsPlaced(s.objs, s.slabs, r, k, core);
  }

  lemma WithRecordsKeeps(s: Sys, base: nat, n: nat, core: nat)
    requires Layered(s, base, n)
    ensures WithRecords(s, core).Fault? <==> core !in s.meta && FreeCount(s, base, n) == 0
    ensures WithRecords(s, core).Done? ==> var m := WithRecords(s, core).value;
              && Layered(m, base, n) && Grows(s, m, core) && m.objs == s.objs && m.slabs == s.slabs
              && m.meta.Keys == s.meta.Keys + {core}
              && FreeCount(m, base, n) == FreeCount(s, base, n) - if core in s.meta then 0 else 1
  {
    if core in s.meta {
      assert s.meta.Keys == s.meta.Keys + {core};
    } else {
      FirstRecords(s, base, n, core);
    }
  }

  lemma FirstRecords(s: Sys, base: nat, n: nat, core: nat)
    requires Layered(s, base, n) && core !in s.meta
    ensures WithRecords(s, core).Fault? <==> FreeCount(s, base, n) == 0
    ensures WithRecords(s, core).Done? ==> var m := WithRecords(s, core).value;
              && Layered(m, base, n) && Grows(s, m, core) && m.objs == s.objs && m.slabs == s.slabs
              && m.meta.Keys == s.meta.Keys + {core}
              && FreeCount(m, base, n) == FreeCount(s, base, n) - 1
  {
    TakePageCorrect(s.pages, base, n);
    if WithRecords(s, core).Done? {
      var r, m := TakePage(s.pages).value.1, WithRecords(s, core).value;
      ReservesMeta(s, m, base, n, core, r);
      ReservesKeeps(s, m, base, n, r);
      MetaTaken(s, m, base, n, core, r);
    }
  }

  lemma ReservesMeta(s: Sys, m: Sys, base: nat, n: nat, core: nat, r: nat)
    requires core !in s.meta && m.slabs == s.slabs && m.meta == s.meta[core := r] && 0 < r
    requires Settled(m.pages, base, n) && InUse(m) == InUse(s) + {Block(r, 0, true)} && FreePage(InUse(s), base, n, r)
    ensures Reserves(s, m, base, n, r)
  {
    NewValue(s.meta, core, r);
  }

  lemma NewValue(meta: map<nat, nat>, core: nat, r: nat)
    requires core !in meta
    ensures meta[core := r].Values == meta.Values + {r}
  {
    var m := meta[core := r];
    forall v | v in meta.Values + {r} ensures v in m.Values {
      if v == r { assert m[core] == v; } else {
        var c :| c in meta && meta[c] == v;
        assert m[c] == v;
      }
    }
  }

  lemma MetaBacked(u: set<Block>, slabs: Slabs, meta: map<nat, nat>, core: nat, r: nat)
    requires Backed(u, slabs, meta) && core !in meta && r !in slabs && r !in meta.Values
    ensures Backed(u + {Block(r, 0, true)}, slabs, meta[core := r])
  {
    assert forall c :: c in meta ==> meta[c] in meta.Values;
  }

  lemma AddSlabKeeps(s: Sys, base: nat, n: nat, core: nat, k: nat)
    requires Layered(s, base, n) && Served(k) && Home(core, k) !in s.objs
    ensures AddSlab(s, core, k).Fault? <==> FreeCount(s, base, n) == 0
    ensures AddSlab(s, core, k).Done? ==> var m := AddSlab(s, core, k).value;
              && Layered(m, base, n) && Grows(s, m, core) && m.meta == s.meta
              && m.objs.Keys == s.objs.Keys + {Home(core, k)}
              && FreeCount(m, base, n) == FreeCount(s, base, n) - 1
  {
    TakePageCorrect(s.pages, base, n);
    if AddSlab(s, core, k).Done? {
      var r, m := TakePage(s.pages).value.1, AddSlab(s, core, k).value;
      ReservesKeeps(s, m, base, n, r);
      SlabTaken(s, m, base, n, core, k, r);
    }
  }

  lemma GrowsMore(s: Sys, m: Sys, r: Sys, core: nat)
    requires Grows(s, m, core) && Grows(m, r, core)
    ensures Grows(s, r, core)
  {
  }

  /** Where the caches of one core are being created, up to but not including order k. */
  ghost predicate Adding(s: Sys, base: nat, n: nat, core: nat, k: nat) {
    && Layered(s, base, n) && MIN_ORDER <= k && CachesBelow(s, core, k) && core in s.meta
    && forall j :: MIN_ORDER <= j < k ==> |s.objs[Home(core, j)]| == Count(Pow2(j))
  }

  lemma AddSlabNext(s: Sys, base: nat, n: nat, core: nat, k: nat)
    requires Adding(s, base, n, core, k) && k <= MAX_ORDER
    ensures AddSlab(s, core, k).Fault? <==> FreeCount(s, base, n) == 0
    ensures AddSlab(s, core, k).Done? ==> var m := AddSlab(s, core, k).value;
              && Adding(m, base, n, core, k + 1) && Grows(s, m, core)
              && FreeCount(m, base, n) == FreeCount(s, base, n) - 1
  {
    AddSlabKeeps(s, base, n, core, k);
  }

  lemma {:induction false} AddSlabsKeeps(s: Sys, base: nat, n: nat, core: nat, k: nat)
    requires Adding(s, base, n, core, k) && k <= MAX_ORDER + 1
    ensures AddSlabs(s, core, k).Fault? <==> FreeCount(s, base, n) < MAX_ORDER + 1 - k
    ensures AddSlabs(s, core, k).Done? ==> var m := AddSlabs(s, core, k).value;
              && Adding(m, base, n, core, MAX_ORDER + 1) && Grows(s, m, core)
              && FreeCount(m, base, n) == FreeCount(s, base, n) - (MAX_ORDER + 1 - k)
    decreases MAX_ORDER + 1 - k
  {
    if k > MAX_ORDER {
    } else {
      AddSlabNext(s, base, n, core, k);
      var next := AddSlab(s, core, k);
      if next.Done? {
        var m, j := next.value, k + 1;
        AddSlabsKeeps(m, base, n, core, j);
        var last := AddSlabs(m, core, j);
        assert AddSlabs(s, core, k) == last;
        if last.Done? { GrowsMore(s, m, last.value, core); }
      }
    }
  }

  lemma GrowsCoreOk(s: Sys, m: Sys, core: nat, c: nat)
    requires Grows(s, m, core) && CoreOk(s, c) && c != core
    ensures CoreOk(m, c)
  {
    forall j: nat ensures Home(c, j) in m.objs <==> Home(c, j) in s.objs {}
  }

  /** A core's first allocation takes a page for each of its five caches, and one for its
      descriptors unless it has one. It goes wrong exactly when fewer pages than that are free. */
  lemma InitCorrect(s: Sys, base: nat, n: nat, core: nat)
    requires Inv(s, base, n) && !Ready(s, core)
    ensures InitCaches(s, core).Fault? <==>
              FreeCount(s, base, n) < 5 + if core in s.meta then 0 else 1
    ensures InitCaches(s, core).Done? ==> var m := InitCaches(s, core).value;
              && Inv(m, base, n) && Grows(s, m, core) && Ready(m, core)
              && FreeCount(m, base, n) == FreeCount(s, base, n) - 5 - (if core in s.meta then 0 else 1)
              && forall j :: Served(j) ==> |At(m.objs, Home(core, j))| == Count(Pow2(j))
  {
    WithRecordsKeeps(s, base, n, core);
    assert CoreOk(s, core);
    if WithRecords(s, core).Done? {
      var r := WithRecords(s, core).value;
      assert CachesBelow(r, core, MIN_ORDER);
      AddSlabsKeeps(r, base, n, core, MIN_ORDER);
      if InitCaches(s, core).Done? {
        var m := InitCaches(s, core).value;
        GrowsMore(s, r, m, core);
        forall c ensures CoreOk(m, c) {
          if c != core { GrowsCoreOk(s, m, core, c); }
        }
      }
    }
  }

  lemma GrowsLive(s: Sys, m: Sys, core: nat)
    requires Grows(s, m, core)
    ensures Live(m) == Live(s)
  {
    assert LiveObjs(m) == LiveObjs(s);
  }

  // ---------------------------------------------------------------- moving objects

  /** m is s with one object moved to another list that may hold it. */
  ghost predicate Moved(s: Sys, m: Sys, p: Place, i: nat, q: Place) {
    && p in s.objs && i < |s.objs[p]| && p != q && Fits(q, s.objs[p][i])
    && m == s.(objs := Move(s.objs, p, i, q))
  }

  lemma MovedKeeps(s: Sys, m: Sys, base: nat, n: nat, p: Place, i: nat, q: Place)
    requires Layered(s, base, n) && Moved(s, m, p, i, q)
    ensures Layered(m, base, n) && LiveBlocks(m) == LiveBlocks(s) && m.objs.Keys == s.objs.Keys + {q}
    ensures var x := s.objs[p][i];
            && Slot(s.slabs, x)
            && LiveObjs(m) == (if q.Owned? then LiveObjs(s) + {x} else LiveObjs(s) - {x})
            && (x in LiveObjs(s) <==> p.Owned?)
  {
    assert Look(ObjectLists);
    var x := s.objs[p][i];
    assert x in s.objs[p];
    MoveMembers(s.objs, p, i, q);
    MoveKeepsPlaced(s.objs, s.slabs, p, i, q);
    LiveObjsMove(s, m, p, q, x);
  }

  lemma LiveObjsMove(s: Sys, m: Sys, p: Place, q: Place, x: Obj)
    requires p in s.objs && x in s.objs[p] && p != q && m.objs.Keys == s.objs.Keys + {q}
    requires forall r :: r in s.objs && x in s.objs[r] ==> r == p
    requires forall r, o :: r in m.objs && o in m.objs[r] <==> if o == x then r == q else r in s.objs && o in s.objs[r]
    ensures LiveObjs(m) == if q.Owned? then LiveObjs(s) + {x} else LiveObjs(s) - {x}
    ensures x in LiveObjs(s) <==> p.Owned?
  {
    forall o | o in LiveObjs(m) ensures if o == x then q.Owned? else o in LiveObjs(s) {
      var r :| r in m.objs.Keys && r.Owned? && o in m.objs[r];
    }
    forall o | o in LiveObjs(s) && o != x ensures o in LiveObjs(m) {
      var r :| r in s.objs.Keys && r.Owned? && o in s.objs[r];
      assert r in m.objs && o in m.objs[r];
    }
    assert q.Owned? ==> q in m.objs.Keys && x in m.objs[q];
  }

  /** Moves that leave every core's own caches in place keep the caches complete. */
  lemma SameCachesOk(s: Sys, m: Sys, c: nat)
    requires CoreOk(s, c) && m.slabs == s.slabs && m.meta == s.meta
    requires forall j: nat :: Home(c, j) in m.objs <==> Home(c, j) in s.objs
    ensures CoreOk(m, c)
  {
  }

  /** The memory callers hold grew by exactly the size bytes at r, none of which they held. */
  ghost predicate Handed(s: Sys, m: Sys, r: nat, size: nat) {
    && (forall x :: x in Live(s) ==> x.Apart(Region(r, r + size)))
    && Live(m) == Live(s) + {Region(r, r + size)}
  }

  /** Moving an object, unless into a core's own cache that does not exist, keeps the invariant. */
  lemma MovedInv(s: Sys, m: Sys, base: nat, n: nat, p: Place, i: nat, q: Place)
    requires Inv(s, base, n) && Moved(s, m, p, i, q) && (q.Home? ==> q in s.objs)
    ensures Inv(m, base, n)
  {
    MovedKeeps(s, m, base, n, p, i, q);
    forall c ensures CoreOk(m, c) { SameCachesOk(s, m, c); }
  }

  lemma LiveAreSlots(s: Sys, base: nat, n: nat)
    requires Layered(s, base, n)
    ensures forall o :: o in LiveObjs(s) ==> Slot(s.slabs, o)
  {
    assert Look(ObjectLists);
  }

  /** Giving a cached object to a task hands its memory over. */
  lemma MovedOut(s: Sys, m: Sys, base: nat, n: nat, p: Place, i: nat, task: nat)
    requires Layered(s, base, n) && Moved(s, m, p, i, Owned(task)) && !p.Owned?
    ensures var x := s.objs[p][i]; x.addr > 0 && Handed(s, m, x.addr, Pow2(x.order))
  {
    var x := s.objs[p][i];
    MovedKeeps(s, m, base, n, p, i, Owned(task));
    LiveAreSlots(s, base, n);
    ObjInSlab(s, base, n, x);
    SlotInPage(s.slabs, x) by { assert Look(ObjectLists); }
    ObjApart(s, base, n, x);
    ObjHanded(s, m, x);
  }

  lemma InItsCache(s: Sys, base: nat, n: nat, h: Place, i: nat)
    requires Layered(s, base, n) && h in s.objs && i < |s.objs[h]|
    ensures Fits(h, s.objs[h][i])
  {
    assert Look(ObjectLists);
    assert s.objs[h][i] in s.objs[h];
  }

  lemma TakeObjCorrect(s: Sys, base: nat, n: nat, core: nat, task: nat, k: nat)
    requires Inv(s, base, n) && Ready(s, core) && Served(k)
    ensures var (m, r) := TakeObj(s, core, task, k);
            && Inv(m, base, n)
            && (r == 0 <==> At(s.objs, Home(core, k)) == [])
            && if r == 0 then m == s else Handed(s, m, r, Pow2(k))
  {
    var h := Home(core, k);
    var c := At(s.objs, h);
    if c != [] {
      var m := TakeObj(s, core, task, k).0;
      InItsCache(s, base, n, h, |c| - 1);
      MovedInv(s, m, base, n, h, |c| - 1, Owned(task));
      MovedOut(s, m, base, n, h, |c| - 1, task);
    }
  }

  lemma ObjHanded(s: Sys, m: Sys, x: Obj)
    requires LiveBlocks(m) == LiveBlocks(s) && LiveObjs(m) == LiveObjs(s) + {x} && x !in LiveObjs(s)
    requires forall q :: q in LiveObjs(s) ==> ObjRegion(x).Apart(ObjRegion(q))
    requires forall b :: b in LiveBlocks(s) ==> PageRegion(b).Apart(ObjRegion(x))
    ensures Handed(s, m, x.addr, Pow2(x.order))
  {
  }

  // ---------------------------------------------------------------- kmalloc

  /** The least order whose blocks hold this many bytes. */
  function SizeOrder(size: nat): (k: nat)
    ensures size <= Size(k) && forall j :: 0 <= j < k ==> Size(j) < size
  {
    SizeOrderFrom(size, 0)
  }

  function SizeOrderFrom(size: nat, i: nat): (k: nat)
    ensures i <= k && size <= Size(k) && forall j :: i <= j < k ==> Size(j) < size
    decreases if size > Size(i) then size - Size(i) else 0
  {
    SizeDouble(i);
    if size <= Size(i) then i else SizeOrderFrom(size, i + 1)
  }

  /** The pages of a request are just enough. */
  lemma PagesForHolds(size: nat)
    requires size > 0
    ensures PAGE_SIZE * (PagesFor(size) - 1) < size <= PAGE_SIZE * PagesFor(size)
  {
  }

  lemma FitsPages(size: nat, k: nat)
    requires size > 0
    ensures PagesFor(size) <= Pow2(k) <==> size <= Size(k)
  {
    PagesForHolds(size);
    if PagesFor(size) <= Pow2(k) {
      MulLe(PagesFor(size), Pow2(k), PAGE_SIZE);
    } else {
      MulLe(Pow2(k), PagesFor(size) - 1, PAGE_SIZE);
    }
  }

  /** What page_alloc is asked for comes to a block of the least order that holds the bytes, and it
      refuses the number of pages exactly when that order is too large. */
  lemma OrderForSize(size: nat)
    requires size > 0
    ensures PagesFor(size) > 0
    ensures PagesFor(size) <= Buddy.MAX_PAGE_BLOCK <==> size <= 0x80_0000
    ensures PagesFor(size) <= Buddy.MAX_PAGE_BLOCK <==> SizeOrder(size) <= Buddy.MAX_PAGE_ORDER
    ensures PagesFor(size) <= Buddy.MAX_PAGE_BLOCK ==> Buddy.PageOrder(PagesFor(size)) == SizeOrder(size)
  {
    Buddy.MaxPageBlock();
    var pages, k := PagesFor(size), SizeOrder(size);
    FitsPages(size, Buddy.MAX_PAGE_ORDER);
    FitsPages(size, k);
    if pages <= Buddy.MAX_PAGE_BLOCK {
      var j := Buddy.PageOrder(pages);
      FitsPages(size, j);
    }
  }

  /** The bytes a successful request of this size is given. */
  function Granted(size: nat): (bytes: nat)
    ensures size <= bytes
  {
    if size >= PAGE_SIZE then Size(SizeOrder(size)) else Pow2(ObjOrder(size))
  }

  /** A change of the page blocks alone: the object layer stays as it was. */
  ghost predicate Repaged(s: Sys, m: Sys) {
    m.objs == s.objs && m.slabs == s.slabs && m.meta == s.meta
  }

  lemma RepagedInv(s: Sys, m: Sys, base: nat, n: nat)
    requires Inv(s, base, n) && Repaged(s, m) && Settled(m.pages, base, n)
    requires forall p :: p in Reserved(s) ==> Block(p, 0, true) in InUse(m)
    ensures Inv(m, base, n) && LiveObjs(m) == LiveObjs(s)
  {
    forall c ensures CoreOk(m, c) { SameCachesOk(s, m, c); }
  }

  /** A new block in use, apart from all others, is handed over. */
  lemma BlockHanded(s: Sys, m: Sys, base: nat, n: nat, b: Block)
    requires Layered(s, base, n) && Repaged(s, m) && LiveObjs(m) == LiveObjs(s)
    requires InUse(m) == InUse(s) + {b} && b !in InUse(s) && forall c :: c in InUse(s) ==> c.Apart(b)
    ensures Handed(s, m, b.page, Size(b.order))
  {
    LiveAreSlots(s, base, n);
    forall o | o in LiveObjs(s) ensures ObjRegion(o).Apart(PageRegion(b)) { ObjInSlab(s, base, n, o); }
    NotReserved(s, m, b);
    RegionHanded(s, m, b);
  }

  lemma NotReserved(s: Sys, m: Sys, b: Block)
    requires Backed(InUse(s), s.slabs, s.meta) && Repaged(s, m) && InUse(m) == InUse(s) + {b}
    requires forall c :: c in InUse(s) ==> c.Apart(b)
    ensures LiveBlocks(m) == LiveBlocks(s) + {b}
  {
    assert forall c :: c in InUse(s) ==> c.page != b.page;
    assert forall p :: p in Reserved(s) ==> Block(p, 0, true).page == p;
  }

  lemma RegionHanded(s: Sys, m: Sys, b: Block)
    requires LiveObjs(m) == LiveObjs(s) && LiveBlocks(m) == LiveBlocks(s) + {b}
    requires forall c :: c in InUse(s) ==> c.Apart(b)
    requires forall o :: o in LiveObjs(s) ==> ObjRegion(o).Apart(PageRegion(b))
    ensures Handed(s, m, b.page, Size(b.order))
  {
  }

  lemma PageAllocCorrect(s: Sys, base: nat, n: nat, pages: nat)
    requires Settled(s.pages, base, n)
    ensures var (l, r) := PageAlloc(s.pages, pages); Settled(l, base, n)
    ensures var (l, r) := PageAlloc(s.pages, pages); r == 0 ==> l == s.pages
    ensures var (l, r) := PageAlloc(s.pages, pages);
            r == 0 <==> pages == 0 || pages > Buddy.MAX_PAGE_BLOCK
                        || forall a :: !FreeRun(Buddy.Blocks(s.pages), base, n, a, Buddy.PageOrder(pages))
    ensures var (l, r) := PageAlloc(s.pages, pages);
            r != 0 ==> && 0 < pages <= Buddy.MAX_PAGE_BLOCK
                       && var b := Block(r, Buddy.PageOrder(pages), true);
                          && Used(Buddy.Blocks(l)) == InUse(s) + {b} && b !in InUse(s)
                          && forall c :: c in InUse(s) ==> c.Apart(b)
  {
    assert Look(PageLists);
    PageAllocIs(s.pages, pages);
    Buddy.AllocCorrect(s.pages, base, n, pages);
    var r := PageAlloc(s.pages, pages).1;
    if r != 0 {
      var b := Block(r, Buddy.PageOrder(pages), true);
      forall c | c in InUse(s) ensures c.Apart(b) { assert !c.Meets(r, b.order); }
    }
  }

  /** kmalloc above the object sizes: whole pages. */
  lemma KmallocPages(s: Sys, base: nat, n: nat, core: nat, task: nat, size: nat)
    requires Inv(s, base, n) && size >= PAGE_SIZE
    ensures Kmalloc(s, core, task, size).Done?
    ensures var (m, r) := Kmalloc(s, core, task, size).value;
            && Inv(m, base, n)
            && (r == 0 ==> Live(m) == Live(s))
            && (r != 0 ==> Handed(s, m, r, Granted(size)))
  {
    OrderForSize(size);
    PageAllocCorrect(s, base, n, PagesFor(size));
    var (m, r) := Kmalloc(s, core, task, size).value;
    RepagedInv(s, m, base, n);
    if r != 0 { BlockHanded(s, m, base, n, Block(r, Buddy.PageOrder(PagesFor(size)), true)); }
  }

  /** kmalloc at the object sizes: an object of the least order that holds the request. */
  lemma KmallocObject(s: Sys, base: nat, n: nat, core: nat, task: nat, size: nat)
    requires Inv(s, base, n) && size <= 1024 && Kmalloc(s, core, task, size).Done?
    ensures var (m, r) := Kmalloc(s, core, task, size).value;
            && Inv(m, base, n)
            && (r == 0 ==> Live(m) == Live(s))
            && (r != 0 ==> Handed(s, m, r, Granted(size)))
            && (r == 0 <==> Ready(s, core) && At(s.objs, Home(core, ObjOrder(size))) == [])
  {
    ServedSizes(size);
    if Ready(s, core) {
      TakeObjCorrect(s, base, n, core, task, ObjOrder(size));
    } else {
      InitCorrect(s, base, n, core);
      var m := InitCaches(s, core).value;
      GrowsLive(s, m, core);
      CarveSize(ObjOrder(size));
      TakeObjCorrect(m, base, n, core, task, ObjOrder(size));
    }
  }

  /** The sizes kmalloc serves. Those in between index past a core's caches. */
  predicate ServedSize(size: nat) { size <= 1024 || size >= PAGE_SIZE }

  /** When kmalloc goes wrong: for a size it has no cache for, or when a core's first object
      request finds too few pages for its caches. */
  lemma KmallocFaults(s: Sys, base: nat, n: nat, core: nat, task: nat, size: nat)
    requires Inv(s, base, n)
    ensures Kmalloc(s, core, task, size).Fault? <==>
              || !ServedSize(size)
              || (size <= 1024 && !Ready(s, core) && FreeCount(s, base, n) < 5 + if core in s.meta then 0 else 1)
  {
    ServedSizes(size);
    if !Ready(s, core) { InitCorrect(s, base, n, core); }
  }

  /** kmalloc keeps the invariant; on success the memory callers hold grows by exactly the region
      handed out, which holds the request and overlaps nothing, and on failure it stays the same. */
  lemma KmallocCorrect(s: Sys, base: nat, n: nat, core: nat, task: nat, size: nat)
    requires Inv(s, base, n) && Kmalloc(s, core, task, size).Done?
    ensures var (m, r) := Kmalloc(s, core, task, size).value;
            && Inv(m, base, n)
            && (r == 0 ==> Live(m) == Live(s))
            && (r != 0 ==> size <= Granted(size) && Handed(s, m, r, Granted(size)))
  {
    KmallocFaults(s, base, n, core, task, size);
    if size >= PAGE_SIZE {
      KmallocPages(s, base, n, core, task, size);
    } else {
      KmallocObject(s, base, n, core, task, size);
    }
  }

  /** When kmalloc returns null: the core's cache of the needed order is empty; or the request is above
      8 MB or no wholly free aligned run of the least sufficient order exists. */
  lemma KmallocFails(s: Sys, base: nat, n: nat, core: nat, task: nat, size: nat)
    requires Inv(s, base, n) && Kmalloc(s, core, task, size).Done?
    ensures Kmalloc(s, core, task, size).value.1 == 0 <==>
              if size < PAGE_SIZE then Ready(s, core) && At(s.objs, Home(core, ObjOrder(size))) == []
              else size > 0x80_0000
                   || forall a :: !FreeRun(Buddy.Blocks(s.pages), base, n, a, SizeOrder(size))
  {
    if size >= PAGE_SIZE {
      OrderForSize(size);
      PageAllocCorrect(s, base, n, PagesFor(size));
    } else {
      KmallocFaults(s, base, n, core, task, size);
      KmallocObject(s, base, n, core, task, size);
    }
  }

  // ---------------------------------------------------------------- kfree

  /** The addresses a task may pass to kfree: null, its own objects, and any address at which no
      slab or metadata page starts. */
  predicate Allowed(s: Sys, task: nat, a: nat) {
    a == 0 || Owns(s, task, a) || a !in Reserved(s)
  }

  lemma PageFreeCorrect(s: Sys, base: nat, n: nat, a: nat)
    requires Settled(s.pages, base, n)
    ensures Settled(PageFree(s.pages, a), base, n)
    ensures Used(Buddy.Blocks(PageFree(s.pages, a))) == set b | b in InUse(s) && b.page != a
  {
    assert Look(PageLists);
    PageFreeIs(s.pages, a);
    Buddy.FreeCorrect(s.pages, base, n, a);
  }

  /** kfree of an address that is no object of the task's: the page block that starts there leaves
      the live memory, if there is one, and no object does. */
  lemma KfreePages(s: Sys, base: nat, n: nat, core: nat, task: nat, a: nat)
    requires Inv(s, base, n) && a != 0 && !Owns(s, task, a) && a !in Reserved(s)
    ensures Kfree(s, core, task, a).Done?
    ensures var m := Kfree(s, core, task, a).value;
            && Inv(m, base, n) && LiveObjs(m) == LiveObjs(s)
            && LiveBlocks(m) == set b | b in LiveBlocks(s) && b.page != a
  {
    PageFreeCorrect(s, base, n, a);
    RepagedInv(s, Kfree(s, core, task, a).value, base, n);
  }

  lemma RecordsInv(s: Sys, base: nat, n: nat, core: nat)
    requires Inv(s, base, n) && WithRecords(s, core).Done?
    ensures Inv(WithRecords(s, core).value, base, n)
  {
    var m := WithRecords(s, core).value;
    WithRecordsKeeps(s, base, n, core);
    forall c ensures CoreOk(m, c) {
      assert CoreOk(s, c);
      assert CachesBelow(s, c, MAX_ORDER + 1) ==> CachesBelow(m, c, MAX_ORDER + 1);
      assert CachesBelow(s, c, MIN_ORDER) ==> CachesBelow(m, c, MIN_ORDER);
    }
  }

  /** A core has all of its caches or none. */
  lemma CachesExist(s: Sys, base: nat, n: nat, core: nat)
    requires Inv(s, base, n)
    ensures if Ready(s, core) then forall k :: Served(k) ==> Home(core, k) in s.objs
            else forall k: nat :: Home(core, k) !in s.objs
  {
    assert CoreOk(s, core);
  }

  /** The caches of an object's own core exist. */
  lemma HomeExists(s: Sys, base: nat, n: nat, o: Obj)
    requires Inv(s, base, n) && Slot(s.slabs, o)
    ensures Home(o.home, o.order) in s.objs
  {
    assert CoreOk(s, o.home);
    assert Served(o.order) by { assert Look(ObjectLists); }
  }

  /** kfree of one of the task's own objects: exactly that object leaves the live memory, for the
      cache it belongs to on this core. No page block leaves it, and none is given up: the address
      does not reach page_free. */
  lemma KfreeObject(s: Sys, base: nat, n: nat, core: nat, task: nat, a: nat)
    requires Inv(s, base, n) && a != 0 && Owns(s, task, a)
    ensures var o := s.objs[Owned(task)][Find(s.objs[Owned(task)], a)];
            && o.addr == a && o in LiveObjs(s)
            && (Kfree(s, core, task, a).Fault? <==>
                  o.home != core && Stray(core, o.order, o.Page()) !in s.objs && core !in s.meta && FreeCount(s, base, n) == 0)
            && (Kfree(s, core, task, a).Done? ==>
                  var m := Kfree(s, core, task, a).value;
                  var q := if o.home == core then Home(core, o.order) else Stray(core, o.order, o.Page());
                  && Inv(m, base, n) && LiveObjs(m) == LiveObjs(s) - {o} && LiveBlocks(m) == LiveBlocks(s)
                  && InUse(s) <= InUse(m) && m.slabs == s.slabs
                  && m.objs[q] == At(s.objs, q) + [o])
  {
    var p, i := Owned(task), Find(s.objs[Owned(task)], a);
    var o := s.objs[p][i];
    var q := HomeOf(o, core);
    OwnedIsLive(s, base, n, task, i);
    HomeExists(s, base, n, o);
    WithRecordsKeeps(s, base, n, core);
    if Kfree(s, core, task, a).Done? {
      var r := if q in s.objs then s else WithRecords(s, core).value;
      if q !in s.objs { RecordsInv(s, base, n, core); }
      var m := Kfree(s, core, task, a).value;
      MovedInv(r, m, base, n, p, i, q);
      MovedKeeps(r, m, base, n, p, i, q);
      assert LiveObjs(r) == LiveObjs(s);
      if q !in s.objs { RecordsGrow(s, base, n, core); }
    }
  }

  lemma OwnedIsLive(s: Sys, base: nat, n: nat, task: nat, i: nat)
    requires Layered(s, base, n) && Owned(task) in s.objs && i < |s.objs[Owned(task)]|
    ensures var o := s.objs[Owned(task)][i]; o in LiveObjs(s) && Slot(s.slabs, o)
  {
    assert Look(ObjectLists);
    assert s.objs[Owned(task)][i] in s.objs[Owned(task)];
  }

  lemma RecordsGrow(s: Sys, base: nat, n: nat, core: nat)
    requires Settled(s.pages, base, n) && WithRecords(s, core).Done?
    ensures InUse(s) <= InUse(WithRecords(s, core).value)
  {
    if core !in s.meta { TakePageCorrect(s.pages, base, n); }
  }

  /** kfree keeps the invariant exactly for the allowed addresses. Passing the address of a slab or
      metadata page that is not one of the task's own objects frees the page under its users. */
  lemma KfreeSafe(s: Sys, base: nat, n: nat, core: nat, task: nat, a: nat)
    requires Inv(s, base, n) && Kfree(s, core, task, a).Done?
    ensures Inv(Kfree(s, core, task, a).value, base, n) <==> Allowed(s, task, a)
  {
    if a == 0 {
    } else if Owns(s, task, a) {
      KfreeObject(s, base, n, core, task, a);
    } else if a !in Reserved(s) {
      KfreePages(s, base, n, core, task, a);
    } else {
      PageFreeCorrect(s, base, n, a);
      var m := Kfree(s, core, task, a).value;
      assert a in Reserved(m) && Block(a, 0, true) !in InUse(m);
    }
  }

  /** An object freed on its own core is the next one that core hands out for its order, to
      whichever task asks; and if the same task asks, it holds what it held. */
  lemma FreeThenAlloc(s: Sys, base: nat, n: nat, core: nat, task: nat, other: nat, a: nat, size: nat)
    requires Inv(s, base, n) && a != 0 && Owns(s, task, a) && size <= 1024
    requires var o := s.objs[Owned(task)][Find(s.objs[Owned(task)], a)];
             o.home == core && o.order == ObjOrder(size)
    ensures Kfree(s, core, task, a).Done?
    ensures var m := Kfree(s, core, task, a).value;
            && Kmalloc(m, core, other, size).Done?
            && Kmalloc(m, core, other, size).value.1 == a
            && Live(Kmalloc(m, core, other, size).value.0) == Live(s)
  {
    KfreeObject(s, base, n, core, task, a);
    var m := Kfree(s, core, task, a).value;
    var o := s.objs[Owned(task)][Find(s.objs[Owned(task)], a)];
    assert HomeOf(o, core) == Home(core, o.order);
    AllocLast(m, base, n, core, other, size, o);
    assert LiveObjs(m) + {o} == LiveObjs(s);
  }

  /** The object at the end of a core's cache is the one the core hands out. */
  lemma AllocLast(m: Sys, base: nat, n: nat, core: nat, task: nat, size: nat, o: Obj)
    requires Inv(m, base, n) && size <= 1024 && o.order == ObjOrder(size) && Home(core, o.order) in m.objs
    requires var c := m.objs[Home(core, o.order)]; c != [] && c[|c| - 1] == o
    ensures Kmalloc(m, core, task, size).Done?
    ensures var (t, r) := Kmalloc(m, core, task, size).value;
            r == o.addr && LiveBlocks(t) == LiveBlocks(m) && LiveObjs(t) == LiveObjs(m) + {o}
  {
    var h := Home(core, o.order);
    assert CoreOk(m, core);
    KmallocFaults(m, base, n, core, task, size);
    ServedSizes(size);
    MovedKeeps(m, Kmalloc(m, core, task, size).value.0, base, n, h, |m.objs[h]| - 1, Owned(task));
  }

  /** kfree of what kmalloc has just returned to the task, on the same core, restores the live memory, and
      for whole pages every block. */
  lemma KfreeUndoesKmalloc(s: Sys, base: nat, n: nat, core: nat, task: nat, size: nat)
    requires Inv(s, base, n) && Kmalloc(s, core, task, size).Done? && Kmalloc(s, core, task, size).value.1 != 0
    ensures var (m, r) := Kmalloc(s, core, task, size).value;
            && Kfree(m, core, task, r).Done?
            && Inv(Kfree(m, core, task, r).value, base, n)
            && Live(Kfree(m, core, task, r).value) == Live(s)
            && (size >= PAGE_SIZE ==> Buddy.Blocks(Kfree(m, core, task, r).value.pages) == Buddy.Blocks(s.pages))
  {
    KmallocCorrect(s, base, n, core, task, size);
    if size >= PAGE_SIZE {
      UndoesPages(s, base, n, core, task, size);
    } else {
      KmallocFaults(s, base, n, core, task, size);
      ServedSizes(size);
      if !Ready(s, core) {
        InitCorrect(s, base, n, core);
        GrowsLive(s, InitCaches(s, core).value, core);
      }
      UndoesObject(if Ready(s, core) then s else InitCaches(s, core).value, base, n, core, task, ObjOrder(size));
    }
  }

  lemma UndoesObject(s: Sys, base: nat, n: nat, core: nat, task: nat, k: nat)
    requires Inv(s, base, n) && Ready(s, core) && Served(k) && TakeObj(s, core, task, k).1 != 0
    ensures var (m, r) := TakeObj(s, core, task, k);
            && Kfree(m, core, task, r).Done?
            && Inv(Kfree(m, core, task, r).value, base, n)
            && Live(Kfree(m, core, task, r).value) == Live(s)
  {
    var h, p := Home(core, k), Owned(task);
    var i := |s.objs[h]| - 1;
    var o, m := s.objs[h][i], TakeObj(s, core, task, k).0;
    InItsCache(s, base, n, h, i);
    MovedInv(s, m, base, n, h, i, p);
    MovedKeeps(s, m, base, n, h, i, p);
    TakeObjCorrect(s, base, n, core, task, k);
    OwnedAt(m, base, n, task, o);
    KfreeObject(m, base, n, core, task, o.addr);
  }

  /** The object found at an owned object's address is that object. */
  lemma OwnedAt(s: Sys, base: nat, n: nat, task: nat, o: Obj)
    requires Layered(s, base, n) && o in At(s.objs, Owned(task))
    ensures Owns(s, task, o.addr) && s.objs[Owned(task)][Find(s.objs[Owned(task)], o.addr)] == o
  {
    assert Look(ObjectLists);
    var l := s.objs[Owned(task)];
    var q := l[Find(l, o.addr)];
    assert q in l;
    SlotInPage(s.slabs, o);
    if q != o { SlotsApart(s.slabs, o, q); }
  }

  lemma UndoesPages(s: Sys, base: nat, n: nat, core: nat, task: nat, size: nat)
    requires Inv(s, base, n) && size >= PAGE_SIZE && Kmalloc(s, core, task, size).value.1 != 0
    ensures var (m, r) := Kmalloc(s, core, task, size).value;
            && Kfree(m, core, task, r).Done?
            && Inv(Kfree(m, core, task, r).value, base, n)
            && Live(Kfree(m, core, task, r).value) == Live(s)
            && Buddy.Blocks(Kfree(m, core, task, r).value.pages) == Buddy.Blocks(s.pages)
  {
    var (m, r) := Kmalloc(s, core, task, size).value;
    PageAllocCorrect(s, base, n, PagesFor(size));
    var b := Block(r, Buddy.PageOrder(PagesFor(size)), true);
    RepagedInv(s, m, base, n);
    NoObjectThere(s, m, base, n, task, b);
    NotReserved(s, m, b);
    KfreePages(m, base, n, core, task, r);
    BlocksBack(s.pages, base, n, PagesFor(size));
    SameLive(s, m, Kfree(m, core, task, r).value, b);
  }

  lemma SameLive(s: Sys, m: Sys, t: Sys, b: Block)
    requires LiveBlocks(m) == LiveBlocks(s) + {b} && forall c :: c in InUse(s) ==> c.Apart(b)
    requires LiveBlocks(t) == (set c | c in LiveBlocks(m) && c.page != b.page) && LiveObjs(t) == LiveObjs(s)
    ensures Live(t) == Live(s)
  {
    assert LiveBlocks(t) == LiveBlocks(s);
  }

  /** At the start of a block that is new no object of the task's lies, nor a reserved page. */
  lemma NoObjectThere(s: Sys, m: Sys, base: nat, n: nat, task: nat, b: Block)
    requires Layered(s, base, n) && Repaged(s, m) && forall c :: c in InUse(s) ==> c.Apart(b)
    ensures !Owns(m, task, b.page) && b.page !in Reserved(m)
  {
    assert forall c :: c in InUse(s) ==> c.page != b.page;
    if Owns(m, task, b.page) {
      var i := Find(s.objs[Owned(task)], b.page);
      OwnedIsLive(s, base, n, task, i);
      ObjInSlab(s, base, n, s.objs[Owned(task)][i]);
    }
    assert forall p :: p in Reserved(s) ==> Block(p, 0, true).page == p;
  }

  lemma BlocksBack(l: Pages, base: nat, n: nat, pages: nat)
    requires Settled(l, base, n) && PageAlloc(l, pages).1 != 0
    ensures Buddy.Blocks(PageFree(PageAlloc(l, pages).0, PageAlloc(l, pages).1)) == Buddy.Blocks(l)
  {
    assert Look(PageLists);
    PageAllocIs(l, pages);
    PageFreeIs(PageAlloc(l, pages).0, PageAlloc(l, pages).1);
    Buddy.FreeUndoesAlloc(l, base, n, pages);
  }

  // ---------------------------------------------------------------- what stays local

  /** The list belongs neither to this core nor to this task. */
  predicate Others(q: Place, core: nat, task: nat) {
    match q
    case Home(c, _) => c != core
    case Stray(c, _, _) => c != core
    case Owned(t) => t != task
  }

  /** From s to m no list of another core or another task has changed, nor another core's metadata
      page; and new slabs are this core's. */
  ghost predicate Local(s: Sys, m: Sys, core: nat, task: nat) {
    && (forall q :: Others(q, core, task) ==> (q in m.objs <==> q in s.objs) && At(m.objs, q) == At(s.objs, q))
    && (forall c: nat :: c != core ==> (c in m.meta <==> c in s.meta) && (c in s.meta ==> m.meta[c] == s.meta[c]))
    && (forall p :: p in s.slabs ==> p in m.slabs && m.slabs[p] == s.slabs[p])
    && (forall p :: p in m.slabs && p !in s.slabs ==> m.slabs[p].home == core)
  }

  lemma {:induction false} AddSlabsMeta(s: Sys, core: nat, k: nat)
    requires k <= MAX_ORDER + 1 && AddSlabs(s, core, k).Done?
    ensures AddSlabs(s, core, k).value.meta == s.meta
    decreases MAX_ORDER + 1 - k
  {
    if k > MAX_ORDER {
    } else {
      AddSlabsMeta(AddSlab(s, core, k).value, core, k + 1);
    }
  }

  lemma InitLocal(s: Sys, base: nat, n: nat, core: nat, task: nat)
    requires Inv(s, base, n) && !Ready(s, core) && InitCaches(s, core).Done?
    ensures Local(s, InitCaches(s, core).value, core, task)
  {
    var m := InitCaches(s, core).value;
    InitCorrect(s, base, n, core);
    AddSlabsMeta(WithRecords(s, core).value, core, MIN_ORDER);
    assert m.meta == WithRecords(s, core).value.meta;
  }

  lemma TakeLocal(s: Sys, r: Sys, core: nat, task: nat, k: nat)
    requires Local(s, r, core, task)
    ensures Local(s, TakeObj(r, core, task, k).0, core, task)
  {
  }

  /** kmalloc on a core for a task works on the lists of that core and that task alone. */
  lemma KmallocLocal(s: Sys, base: nat, n: nat, core: nat, task: nat, size: nat)
    requires Inv(s, base, n) && Kmalloc(s, core, task, size).Done?
    ensures Local(s, Kmalloc(s, core, task, size).value.0, core, task)
  {
    if size < PAGE_SIZE {
      if !Ready(s, core) { InitLocal(s, base, n, core, task); }
      TakeLocal(s, if Ready(s, core) then s else InitCaches(s, core).value, core, task, ObjOrder(size));
    }
  }

  /** So does kfree, and what it frees ends up with the core that frees it. */
  lemma KfreeLocal(s: Sys, core: nat, task: nat, a: nat)
    requires Kfree(s, core, task, a).Done?
    ensures Local(s, Kfree(s, core, task, a).value, core, task)
  {
  }

  // ---------------------------------------------------------------- runs

  datatype Call = Malloc(core: nat, task: nat, size: nat) | Release(core: nat, task: nat, addr: nat)

  ghost function Step(s: Sys, c: Call): Outcome<Sys> {
    match c
    case Malloc(core, task, size) =>
      (match Kmalloc(s, core, task, size) case Done((m, r)) => Done(m) case Fault => Fault)
    case Release(core, task, a) => Kfree(s, core, task, a)
  }

  /** A run that does not go wrong and frees only what it may, ending in m. */
  ghost predicate Runs(s: Sys, cs: seq<Call>, m: Sys)
    decreases |cs|
  {
    if cs == [] then m == s else
    && (cs[0].Release? ==> Allowed(s, cs[0].task, cs[0].addr))
    && Step(s, cs[0]).Done?
    && Runs(Step(s, cs[0]).value, cs[1..], m)
  }

  lemma StepKeepsInv(s: Sys, base: nat, n: nat, c: Call)
    requires Inv(s, base, n) && Step(s, c).Done?
    requires c.Release? ==> Allowed(s, c.task, c.addr)
    ensures Inv(Step(s, c).value, base, n)
  {
    match c {
      case Malloc(core, task, size) => KmallocCorrect(s, base, n, core, task, size);
      case Release(core, task, a) => KfreeSafe(s, base, n, core, task, a);
    }
  }

  lemma {:induction false} RunKeepsInv(s: Sys, base: nat, n: nat, cs: seq<Call>, m: Sys)
    requires Inv(s, base, n) && Runs(s, cs, m)
    ensures Inv(m, base, n)
    decreases |cs|
  {
    if cs == [] {
    } else {
      StepKeepsInv(s, base, n, cs[0]);
      RunKeepsInv(Step(s, cs[0]).value, base, n, cs[1..], m);
    }
  }

  /** The list belongs to no core and no task that takes part in the calls. */
  predicate Uninvolved(q: Place, cs: seq<Call>) {
    forall c :: c in cs ==> Others(q, c.core, c.task)
  }

  /** Whatever some cores and tasks do, the lists of all others stay as they are. */
  lemma {:induction false} RunLocal(s: Sys, base: nat, n: nat, cs: seq<Call>, m: Sys, q: Place)
    requires Inv(s, base, n) && Runs(s, cs, m) && Uninvolved(q, cs)
    ensures (q in m.objs <==> q in s.objs) && At(m.objs, q) == At(s.objs, q)
    decreases |cs|
  {
    if cs == [] {
    } else {
      var c := cs[0];
      assert c in cs;
      match c {
        case Malloc(core, task, size) => KmallocLocal(s, base, n, core, task, size);
        case Release(core, task, a) => KfreeLocal(s, core, task, a);
      }
      StepKeepsInv(s, base, n, c);
      RunLocal(Step(s, c).value, base, n, cs[1..], m, q);
    }
  }

  lemma BootInv(base: nat, n: nat)
    requires 0 < base && n < Buddy.MAX_PAGE_ORDER && Aligned(base, n)
    ensures Inv(Boot(base, n), base, n) && Live(Boot(base, n)) == {}
  {
    var s := Boot(base, n);
    Buddy.InitialSettled(base, n);
    assert InUse(s) == {};
    forall c ensures CoreOk(s, c) { assert CachesBelow(s, c, MIN_ORDER); }
  }

  /** Safety over whole runs: from boot, on any number of cores and tasks, the live regions of both
      allocators are pairwise disjoint; every object lies in a one-page block that is in use; and
      every object of every slab is in exactly one list. */
  lemma RunsAreSafe(base: nat, n: nat, cs: seq<Call>, m: Sys)
    requires 0 < base && n < Buddy.MAX_PAGE_ORDER && Aligned(base, n) && Runs(Boot(base, n), cs, m)
    ensures forall x, y :: x in Live(m) && y in Live(m) && x != y ==> x.Apart(y)
    ensures forall o :: Slot(m.slabs, o) ==>
              Block(o.Page(), 0, true) in InUse(m) && o.Page() <= o.addr && o.End() <= o.Page() + PAGE_SIZE
    ensures Conserved(m.objs, m.slabs) && Sound(m.objs, m.slabs)
  {
    BootInv(base, n);
    RunKeepsInv(Boot(base, n), base, n, cs, m);
    LiveApart(m, base, n);
    forall o | Slot(m.slabs, o)
      ensures Block(o.Page(), 0, true) in InUse(m) && o.Page() <= o.addr && o.End() <= o.Page() + PAGE_SIZE {
      ObjInSlab(m, base, n, o);
    }
    assert Look(ObjectLists);
  }

  /** Nothing leaks: when no memory is held any more, the blocks in use are the slabs and the
      metadata pages, and every object is back in a cache. */
  lemma NothingLeaks(s: Sys, base: nat, n: nat)
    requires Inv(s, base, n) && Live(s) == {}
    ensures InUse(s) == set p | p in Reserved(s) :: Block(p, 0, true)
    ensures forall o :: Slot(s.slabs, o) ==> exists p :: p in s.objs && !p.Owned? && o in s.objs[p]
  {
    assert Look(PageLists) && Look(ObjectLists);
    forall b | b in InUse(s) ensures b.page in Reserved(s) && b == Block(b.page, 0, true) {
      assert b in LiveBlocks(s) ==> PageRegion(b) in Live(s);
      var c := Block(b.page, 0, true);
      assert c in InUse(s);
      SamePage(Buddy.Blocks(s.pages), base, n, b, c);
    }
    forall o | Slot(s.slabs, o) ensures exists p :: p in s.objs && !p.Owned? && o in s.objs[p] {
      var p :| p in s.objs && o in s.objs[p];
      assert p.Owned? ==> o in LiveObjs(s);
      assert o in LiveObjs(s) ==> ObjRegion(o) in Live(s);
    }
  }
}
