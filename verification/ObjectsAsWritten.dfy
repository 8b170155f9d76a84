/** kmalloc and kfree with the object lists of slub.c as the code has them: when each call is what it
    should be, what it does otherwise, and what of the theorems about runs holds of the code as it is.
    A list that a wrong call leaves is described as far as its objects go: two lists that end up with
    one object share it from then on, which values do not show, so nothing is said of later calls but
    the addresses they return. */
module ObjectsAsWritten {
  import opened Folding
  import opened Dyadic
  import opened BuddyTiling
  import opened Slub
  import opened K = Kmalloc
  import Buddy = BuddyLists
  import BuddyAsWritten

  // ---------------------------------------------------------------- kmalloc

  /** kmem_acquire_obj and kmem_add_to_task. */
  function TakeObjAsWritten(s: Sys, core: nat, task: nat, k: nat): (Sys, nat) {
    var h := Home(core, k);
    var c := At(s.objs, h);
    if c == [] then (s, 0) else (s.(objs := TakeAsWritten(s.objs, h, Owned(task))), c[|c| - 1].addr)
  }

  ghost function KmallocAsWritten(s: Sys, core: nat, task: nat, size: nat): Outcome<(Sys, nat)> {
    if size >= PAGE_SIZE then Kmalloc(s, core, task, size) else
    match if Ready(s, core) then Done(s) else InitCaches(s, core)
    case Fault => Fault
    case Done(m) => if !Served(ObjOrder(size)) then Fault else Done(TakeObjAsWritten(m, core, task, ObjOrder(size)))
  }

  /** The cache that serves the request does not hold exactly one object. */
  predicate KmallocGuard(s: Sys, core: nat, size: nat) {
    size >= PAGE_SIZE || !Ready(s, core) || |At(s.objs, Home(core, ObjOrder(size)))| != 1
  }

  lemma TakeObjMeetsContract(s: Sys, base: nat, n: nat, core: nat, task: nat, k: nat)
    requires Layered(s, base, n)
    ensures TakeObjAsWritten(s, core, task, k) == TakeObj(s, core, task, k) <==> |At(s.objs, Home(core, k))| != 1
  {
    assert Look(ObjectLists);
    var h := Home(core, k);
    if At(s.objs, h) != [] { TakeMeetsContract(s.objs, s.slabs, h, Owned(task)); }
  }

  /** kmalloc as written is right exactly under that guard. */
  lemma KmallocMeetsContract(s: Sys, base: nat, n: nat, core: nat, task: nat, size: nat)
    requires Inv(s, base, n)
    ensures KmallocAsWritten(s, core, task, size) == Kmalloc(s, core, task, size) <==> KmallocGuard(s, core, size)
  {
    var k := ObjOrder(size);
    if size < PAGE_SIZE {
      assert CoreOk(s, core);
      if Ready(s, core) {
        TakeObjMeetsContract(s, base, n, core, task, k);
      } else {
        InitCorrect(s, base, n, core);
        if InitCaches(s, core).Done? && Served(k) {
          CarveSize(k);
          TakeObjMeetsContract(InitCaches(s, core).value, base, n, core, task, k);
        }
      }
    }
  }

  /** Otherwise the object handed out stays in the cache, and the next request of its order on that
      core, whoever makes it, is given the same memory, which is live. */
  lemma HandsOutTwice(s: Sys, base: nat, n: nat, core: nat, task: nat, size: nat) returns (m: Sys, a: nat)
    requires Inv(s, base, n) && !KmallocGuard(s, core, size)
    ensures KmallocAsWritten(s, core, task, size) == Done((m, a)) && a != 0
    ensures !Conserved(m.objs, m.slabs) && Region(a, a + Pow2(ObjOrder(size))) in Live(m)
    ensures forall other: nat, more: nat :: more < PAGE_SIZE && ObjOrder(more) == ObjOrder(size) ==>
              KmallocAsWritten(m, core, other, more).Done? && KmallocAsWritten(m, core, other, more).value.1 == a
  {
    var k := ObjOrder(size);
    assert CoreOk(s, core);
    var o := SoleObject(s, base, n, core, k);
    m, a := TakeObjAsWritten(s, core, task, k).0, TakeObjAsWritten(s, core, task, k).1;
    SoleStays(s, base, n, Home(core, k), Owned(task), o, m);
    forall other: nat, more: nat | more < PAGE_SIZE && ObjOrder(more) == k
      ensures KmallocAsWritten(m, core, other, more).Done? && KmallocAsWritten(m, core, other, more).value.1 == a {
      HandsOutSole(m, core, other, more, o);
    }
  }

  lemma SoleObject(s: Sys, base: nat, n: nat, core: nat, k: nat) returns (o: Obj)
    requires Layered(s, base, n) && |At(s.objs, Home(core, k))| == 1
    ensures At(s.objs, Home(core, k)) == [o] && o.addr > 0 && o.order == k
  {
    assert Look(ObjectLists);
    o := s.objs[Home(core, k)][0];
    InItsCache(s, base, n, Home(core, k), 0);
    SlotInPage(s.slabs, o);
  }

  lemma SoleStays(s: Sys, base: nat, n: nat, h: Place, p: Place, o: Obj, m: Sys)
    requires Layered(s, base, n) && h.Home? && p.Owned? && At(s.objs, h) == [o]
    requires m == s.(objs := TakeAsWritten(s.objs, h, p))
    ensures At(m.objs, h) == [o] && !Conserved(m.objs, m.slabs) && ObjRegion(o) in Live(m)
  {
    assert Look(ObjectLists);
    TakeMeetsContract(s.objs, s.slabs, h, p);
    var l := m.objs[p];
    assert l[|l| - 1] == o;
    assert p in m.objs.Keys && o in m.objs[p];
  }

  lemma HandsOutSole(s: Sys, core: nat, task: nat, size: nat, o: Obj)
    requires size < PAGE_SIZE && Ready(s, core) && Served(ObjOrder(size)) && At(s.objs, Home(core, ObjOrder(size))) == [o]
    ensures KmallocAsWritten(s, core, task, size).Done? && KmallocAsWritten(s, core, task, size).value.1 == o.addr
  {
  }

  // ---------------------------------------------------------------- kfree

  ghost function SlubFreeAsWritten(s: Sys, core: nat, task: nat, a: nat): Outcome<Sys>
    requires Owns(s, task, a)
  {
    var p, i := Owned(task), Find(s.objs[Owned(task)], a);
    match if s.objs[p][Taken(|s.objs[p]|, i)].home == core then Done(s) else WithRecords(s, core)
    case Fault => Fault
    case Done(m) => Done(m.(objs := FreeAsWritten(s.objs, p, i, core)))
  }

  ghost function KfreeAsWritten(s: Sys, core: nat, task: nat, a: nat): Outcome<Sys> {
    if a != 0 && Owns(s, task, a) then SlubFreeAsWritten(s, core, task, a) else Kfree(s, core, task, a)
  }

  /** An object of the task's is not the first of its list, and is freed on its own core. */
  predicate KfreeGuard(s: Sys, core: nat, task: nat, a: nat) {
    a == 0 || !Owns(s, task, a) ||
    var l := s.objs[Owned(task)];
    Find(l, a) != 0 && l[Find(l, a)].home == core
  }

  /** kfree as written is right exactly under that guard. */
  lemma KfreeMeetsContract(s: Sys, base: nat, n: nat, core: nat, task: nat, a: nat)
    requires Inv(s, base, n)
    ensures KfreeGuard(s, core, task, a) ==> KfreeAsWritten(s, core, task, a) == Kfree(s, core, task, a)
    ensures KfreeAsWritten(s, core, task, a) == Kfree(s, core, task, a) && KfreeAsWritten(s, core, task, a).Done? ==>
              KfreeGuard(s, core, task, a)
  {
    if a != 0 && Owns(s, task, a) {
      assert Look(ObjectLists);
      var p, i := Owned(task), Find(s.objs[Owned(task)], a);
      FreeMeetsContract(s.objs, s.slabs, p, i, core, HomeOf(s.objs[p][i], core));
    }
  }

  /** For an object it takes on another core than the object's, that core needs its metadata page, and kfree
      as written goes wrong exactly when it has none and no page is free. */
  lemma KfreeNeedsRecords(s: Sys, base: nat, n: nat, core: nat, task: nat, a: nat)
    requires Inv(s, base, n) && a != 0 && Owns(s, task, a)
    ensures var l := s.objs[Owned(task)]; var i := Find(l, a); var t := l[if i == 0 && |l| > 1 then 1 else i];
            && (KfreeAsWritten(s, core, task, a).Fault? <==>
                  t.home != core && core !in s.meta && FreeCount(s, base, n) == 0)
            && (KfreeAsWritten(s, core, task, a).Done? ==>
                  KfreeAsWritten(s, core, task, a).value.meta.Keys == s.meta.Keys + if t.home == core then {} else {core})
  {
    var l := s.objs[Owned(task)];
    var t := l[Taken(|l|, Find(l, a))];
    var r := if t.home == core then Done(s) else WithRecords(s, core);
    assert KfreeAsWritten(s, core, task, a).Fault? <==> r.Fault?;
    assert r.Done? ==> KfreeAsWritten(s, core, task, a).value.meta == r.value.meta;
    if t.home != core { WithRecordsKeeps(s, base, n, core); }
  }

  /** What it does with one of the task's objects in every case, by the object o it is asked for and
      the object t it takes. A sole object stays the task's, and on its own core is in the core's
      cache as well. The first of several stays the task's too, and the second is freed in its place.
      What is taken from several on another core is in no list any more, and otherwise goes home. */
  lemma KfreeCases(s: Sys, base: nat, n: nat, core: nat, task: nat, a: nat) returns (m: Sys, o: Obj, t: Obj)
    requires Inv(s, base, n) && a != 0 && Owns(s, task, a) && KfreeAsWritten(s, core, task, a).Done?
    ensures KfreeAsWritten(s, core, task, a) == Done(m)
    ensures var l := s.objs[Owned(task)]; var i := Find(l, a);
            && o == l[i] && o.addr == a && t == l[if i == 0 && |l| > 1 then 1 else i]
            && (Conserved(m.objs, m.slabs) <==> (t.home == core <==> |l| > 1))
            && (i == 0 ==> o in m.objs[Owned(task)])
            && (|l| == 1 && o.home == core ==> o in m.objs[Home(core, o.order)])
            && (|l| == 1 && o.home != core ==> m.objs == s.objs)
            && (|l| > 1 && t.home == core ==> m.objs == Move(s.objs, Owned(task), if i == 0 then 1 else i, Home(core, t.order)))
            && (|l| > 1 && t.home != core ==> Slot(m.slabs, t) && forall q :: q in m.objs ==> t !in m.objs[q])
  {
    var p, i := Owned(task), Find(s.objs[Owned(task)], a);
    var l := s.objs[p];
    o, t, m := l[i], l[Taken(|l|, i)], KfreeAsWritten(s, core, task, a).value;
    assert Look(ObjectLists);
    if t.home != core { WithRecordsKeeps(s, base, n, core); }
    FreeCases(s.objs, s.slabs, p, i, core);
  }

  // ---------------------------------------------------------------- runs

  ghost function StepAsWritten(s: Sys, c: Call): Outcome<Sys> {
    match c
    case Malloc(core, task, size) =>
      (match KmallocAsWritten(s, core, task, size) case Done((m, r)) => Done(m) case Fault => Fault)
    case Release(core, task, a) => KfreeAsWritten(s, core, task, a)
  }

  /** A run of the code as written that does not go wrong and frees only what it may, ending in m. */
  ghost predicate RunsAsWritten(s: Sys, cs: seq<Call>, m: Sys)
    decreases |cs|
  {
    if cs == [] then m == s else
    && (cs[0].Release? ==> Allowed(s, cs[0].task, cs[0].addr))
    && StepAsWritten(s, cs[0]).Done?
    && RunsAsWritten(StepAsWritten(s, cs[0]).value, cs[1..], m)
  }

  predicate Guard(s: Sys, c: Call) {
    match c
    case Malloc(core, task, size) => KmallocGuard(s, core, size)
    case Release(core, task, a) => KfreeGuard(s, core, task, a)
  }

  /** Every call of the run meets its guard when it is made. */
  ghost predicate Guarded(s: Sys, cs: seq<Call>)
    decreases |cs|
  {
    cs == [] || (Guard(s, cs[0]) && (StepAsWritten(s, cs[0]).Done? ==> Guarded(StepAsWritten(s, cs[0]).value, cs[1..])))
  }

  lemma GuardedStep(s: Sys, base: nat, n: nat, c: Call)
    requires Inv(s, base, n) && Guard(s, c)
    ensures StepAsWritten(s, c) == Step(s, c)
  {
    match c {
      case Malloc(core, task, size) => KmallocMeetsContract(s, base, n, core, task, size);
      case Release(core, task, a) => KfreeMeetsContract(s, base, n, core, task, a);
    }
  }

  /** Where the guards are met, the runs of the code as written are the runs the theorems are about. */
  lemma {:induction false} GuardedRun(s: Sys, base: nat, n: nat, cs: seq<Call>, m: Sys)
    requires Inv(s, base, n) && Guarded(s, cs)
    ensures RunsAsWritten(s, cs, m) <==> Runs(s, cs, m)
    ensures RunsAsWritten(s, cs, m) ==> Inv(m, base, n)
    decreases |cs|
  {
    if cs == [] {
    } else {
      var c := cs[0];
      GuardedStep(s, base, n, c);
      var r := Step(s, c);
      if r.Done? && (c.Release? ==> Allowed(s, c.task, c.addr)) {
        StepKeepsInv(s, base, n, c);
        GuardedRun(r.value, base, n, cs[1..], m);
      }
    }
  }

  /** The guarded runs of the code as written are safe: from boot, the live regions of both allocators
      are pairwise disjoint, every object lies in a one-page block that is in use, and every object of
      every slab is in exactly one list. */
  lemma GuardedRunsAreSafe(base: nat, n: nat, cs: seq<Call>, m: Sys)
    requires 0 < base && n < Buddy.MAX_PAGE_ORDER && Aligned(base, n)
    requires RunsAsWritten(Boot(base, n), cs, m) && Guarded(Boot(base, n), cs)
    ensures forall x, y :: x in Live(m) && y in Live(m) && x != y ==> x.Apart(y)
    ensures forall o :: Slot(m.slabs, o) ==>
              Block(o.Page(), 0, true) in InUse(m) && o.Page() <= o.addr && o.End() <= o.Page() + PAGE_SIZE
    ensures Conserved(m.objs, m.slabs) && Sound(m.objs, m.slabs)
  {
    BootInv(base, n);
    GuardedRun(Boot(base, n), base, n, cs, m);
    RunsAreSafe(base, n, cs, m);
  }

  // ---------------------------------------------------------------- the page lists of a run

  /** The calls of the page allocator that a guarded call makes. */
  function PageOps(s: Sys, c: Call): seq<Buddy.Op> {
    match c
    case Malloc(core, _, size) =>
      if size >= PAGE_SIZE then [Buddy.PageAlloc(PagesFor(size))]
      else if Ready(s, core) then [] else Buddy.Singles(5 + if core in s.meta then 0 else 1)
    case Release(core, task, a) =>
      if a == 0 || Owns(s, task, a) then [] else [Buddy.PageFree(a)]
  }

  /** These calls lead from page lists l to m; folded. */
  ghost predicate Leads(l: Pages, ops: seq<Buddy.Op>, m: Pages) {
    forall z {:trigger Look(z)} :: Look(z) && z == PageCalls ==> Buddy.Run(l, ops) == m
  }

  lemma LeadsNowhere(l: Pages)
    ensures Leads(l, [], l) && Leads(l, Buddy.Singles(0), l)
  {
  }

  lemma LeadsOn(l: Pages, xs: seq<Buddy.Op>, m: Pages, ys: seq<Buddy.Op>, r: Pages)
    requires Leads(l, xs, m) && Leads(m, ys, r)
    ensures Leads(l, xs + ys, r)
  {
    assert Look(PageCalls);
    Buddy.RunAppend(l, xs, ys);
  }

  lemma SinglesOn(l: Pages, c: nat, m: Pages, d: nat, r: Pages)
    requires Leads(l, Buddy.Singles(c), m) && Leads(m, Buddy.Singles(d), r)
    ensures Leads(l, Buddy.Singles(c + d), r)
  {
    Buddy.SinglesRun(l, c, d);
    LeadsOn(l, Buddy.Singles(c), m, Buddy.Singles(d), r);
  }

  lemma LeadsBy(l: Pages, op: Buddy.Op, m: Pages)
    requires match op case PageAlloc(k) => PageAlloc(l, k).0 == m case PageFree(a) => PageFree(l, a) == m
    ensures Leads(l, [op], m)
  {
    match op {
      case PageAlloc(k) => PageAllocIs(l, k);
      case PageFree(a) => PageFreeIs(l, a);
    }
    StepLeads(l, op, m, [op]);
  }

  lemma StepLeads(l: Pages, op: Buddy.Op, m: Pages, ops: seq<Buddy.Op>)
    requires Buddy.Step(l, op) == m && ops == [op]
    ensures Buddy.Run(l, ops) == m
  {
    assert ops[1..] == [];
    assert Buddy.Run(m, []) == m;
  }

  lemma TakePageLeads(l: Pages)
    requires TakePage(l).Done?
    ensures Leads(l, Buddy.Singles(1), TakePage(l).value.0)
  {
    assert Buddy.Singles(1) == [Buddy.PageAlloc(1)];
    LeadsBy(l, Buddy.PageAlloc(1), TakePage(l).value.0);
  }

  lemma {:induction false} AddSlabsLeads(s: Sys, core: nat, k: nat)
    requires k <= MAX_ORDER + 1 && AddSlabs(s, core, k).Done?
    ensures Leads(s.pages, Buddy.Singles(MAX_ORDER + 1 - k), AddSlabs(s, core, k).value.pages)
    decreases MAX_ORDER + 1 - k
  {
    if k > MAX_ORDER {
      LeadsNowhere(s.pages);
    } else {
      TakePageLeads(s.pages);
      var m, d := AddSlab(s, core, k).value, MAX_ORDER + 1 - (k + 1);
      AddSlabsLeads(m, core, k + 1);
      SinglesOn(s.pages, 1, m.pages, d, AddSlabs(s, core, k).value.pages);
      assert 1 + d == MAX_ORDER + 1 - k;
    }
  }

  lemma InitLeads(s: Sys, core: nat)
    requires InitCaches(s, core).Done?
    ensures Leads(s.pages, Buddy.Singles(5 + if core in s.meta then 0 else 1), InitCaches(s, core).value.pages)
  {
    var m := WithRecords(s, core).value;
    AddSlabsLeads(m, core, MIN_ORDER);
    if core !in s.meta {
      TakePageLeads(s.pages);
      SinglesOn(s.pages, 1, m.pages, 5, InitCaches(s, core).value.pages);
    }
  }

  lemma GuardedStepLeads(s: Sys, c: Call)
    requires Guard(s, c) && Step(s, c).Done?
    ensures Leads(s.pages, PageOps(s, c), Step(s, c).value.pages)
  {
    LeadsNowhere(s.pages);
    match c {
      case Malloc(core, task, size) =>
        if size >= PAGE_SIZE {
          LeadsBy(s.pages, Buddy.PageAlloc(PagesFor(size)), Step(s, c).value.pages);
        } else if !Ready(s, core) {
          InitLeads(s, core);
        }
      case Release(core, task, a) =>
        if a != 0 && !Owns(s, task, a) { LeadsBy(s.pages, Buddy.PageFree(a), Step(s, c).value.pages); }
    }
  }

  ghost function RunOps(s: Sys, cs: seq<Call>): seq<Buddy.Op>
    decreases |cs|
  {
    if cs == [] then [] else
    PageOps(s, cs[0]) + if StepAsWritten(s, cs[0]).Done? then RunOps(StepAsWritten(s, cs[0]).value, cs[1..]) else []
  }

  lemma {:induction false} RunLeads(s: Sys, base: nat, n: nat, cs: seq<Call>, m: Sys)
    requires Inv(s, base, n) && Guarded(s, cs) && RunsAsWritten(s, cs, m)
    ensures Leads(s.pages, RunOps(s, cs), m.pages)
    decreases |cs|
  {
    if cs == [] {
      LeadsNowhere(s.pages);
    } else {
      var c := cs[0];
      GuardedStep(s, base, n, c);
      var r := Step(s, c).value;
      StepKeepsInv(s, base, n, c);
      GuardedStepLeads(s, c);
      RunLeads(r, base, n, cs[1..], m);
      LeadsOn(s.pages, PageOps(s, c), r.pages, RunOps(r, cs[1..]), m.pages);
    }
  }

  /** Where the calls that such a run makes of the page allocator meet their guards too, both layers are
      the code as written: the page lists are those that its page_alloc and page_free lead to. */
  lemma PagesAsWritten(base: nat, n: nat, cs: seq<Call>, m: Sys)
    requires 0 < base && n < Buddy.MAX_PAGE_ORDER && Aligned(base, n)
    requires RunsAsWritten(Boot(base, n), cs, m) && Guarded(Boot(base, n), cs)
    requires BuddyAsWritten.Guarded(Buddy.Initial(base, n), RunOps(Boot(base, n), cs))
    ensures m.pages == BuddyAsWritten.RunAsWritten(Buddy.Initial(base, n), RunOps(Boot(base, n), cs))
  {
    var ops := RunOps(Boot(base, n), cs);
    BootInv(base, n);
    RunLeads(Boot(base, n), base, n, cs, m);
    assert Look(PageCalls);
    BuddyAsWritten.GuardedRun(Buddy.Initial(base, n), base, n, ops);
  }

  // ---------------------------------------------------------------- boot

  /** At boot the pages of the range are free: at least the first eight, in a range that has eight. */
  lemma BootPages(base: nat, n: nat)
    requires 0 < base && 3 <= n < Buddy.MAX_PAGE_ORDER && Aligned(base, n)
    ensures FreeCount(Boot(base, n), base, n) >= 8
  {
    Buddy.InitialSettled(base, n);
    assert InUse(Boot(base, n)) == {};
    AlignedPage(base, n);
    FirstPages(base, n, 8);
  }

  lemma FirstPages(base: nat, n: nat, k: nat)
    requires base % PAGE_SIZE == 0 && k * PAGE_SIZE <= Size(n)
    ensures |FreePages({}, base, n)| >= k
  {
    var s, t := PagesBelow(base, k), FreePages({}, base, n);
    CountBelow(base, k);
    forall a | a in s ensures a in t {
      var i := WhichPage(base, k, a);
      NthPage(base, n, i);
    }
    Subset(s, t);
  }

  lemma NthPage(base: nat, n: nat, i: nat)
    requires base % PAGE_SIZE == 0 && i * PAGE_SIZE + PAGE_SIZE <= Size(n)
    ensures base + i * PAGE_SIZE in FreePages({}, base, n)
  {
    var a := base + i * PAGE_SIZE;
    assert a % PAGE_SIZE == 0;
    assert FreePage({}, base, n, a);
  }

  /** The addresses of the first k pages from base on. */
  function PagesBelow(base: nat, k: nat): (s: set<nat>)
    ensures forall a :: a in s ==> a < base + k * PAGE_SIZE
  {
    if k == 0 then {} else PagesBelow(base, k - 1) + {base + (k - 1) * PAGE_SIZE}
  }

  lemma {:induction false} CountBelow(base: nat, k: nat)
    ensures |PagesBelow(base, k)| == k
    decreases k
  {
    if k == 0 {
    } else {
      CountBelow(base, k - 1);
    }
  }

  lemma {:induction false} WhichPage(base: nat, k: nat, a: nat) returns (i: nat)
    requires a in PagesBelow(base, k)
    ensures i < k && a == base + i * PAGE_SIZE
    decreases k
  {
    if a == base + (k - 1) * PAGE_SIZE {
      i := k - 1;
    } else {
      i := WhichPage(base, k - 1, a);
    }
  }

  lemma AlignedPage(base: nat, n: nat)
    requires Aligned(base, n) && 3 <= n
    ensures base % PAGE_SIZE == 0 && Size(n) >= 8 * PAGE_SIZE
  {
    var c := SizeRatio(0, n);
    OnePage(0);
    MultipleDown(base, Size(0), c);
    var d := SizeRatio(3, n);
    assert Pow2(3) == 8;
    MulLe(1, d, Size(3));
  }

  lemma Subset(s: set<nat>, t: set<nat>)
    requires s <= t
    ensures |s| <= |t|
  {
    assert t == s + (t - s);
  }

  /** The first request on core 0 finds at least eight pages, and its caches full. */
  lemma BootReady(base: nat, n: nat, task: nat, size: nat) returns (r: Sys)
    requires 0 < base && 3 <= n < Buddy.MAX_PAGE_ORDER && Aligned(base, n) && size <= 1024
    ensures Inv(r, base, n) && Ready(r, 0) && FreeCount(r, base, n) >= 2
    ensures |At(r.objs, Home(0, ObjOrder(size)))| == Count(Pow2(ObjOrder(size))) >= 4 && At(r.objs, Owned(task)) == []
    ensures KmallocAsWritten(Boot(base, n), 0, task, size) == KmallocAsWritten(r, 0, task, size)
  {
    var b := Boot(base, n);
    BootInv(base, n);
    BootPages(base, n);
    InitCorrect(b, base, n, 0);
    ServedSizes(size);
    CarveSize(ObjOrder(size));
    r := InitCaches(b, 0).value;
  }

  /** A request to a cache of at least two objects: the task is given the last of them. */
  lemma Takes(s: Sys, base: nat, n: nat, core: nat, task: nat, size: nat) returns (m: Sys, o: Obj)
    requires Inv(s, base, n) && Ready(s, core) && size <= 1024 && |At(s.objs, Home(core, ObjOrder(size)))| >= 2
    ensures KmallocGuard(s, core, size) && KmallocAsWritten(s, core, task, size) == Done((m, o.addr))
    ensures Inv(m, base, n) && Ready(m, core) && o.addr > 0 && FreeCount(m, base, n) == FreeCount(s, base, n)
    ensures |At(m.objs, Home(core, ObjOrder(size)))| == |At(s.objs, Home(core, ObjOrder(size)))| - 1
    ensures At(m.objs, Owned(task)) == At(s.objs, Owned(task)) + [o] && o.home == core && Slot(m.slabs, o)
  {
    var k := ObjOrder(size);
    ServedSizes(size);
    KmallocMeetsContract(s, base, n, core, task, size);
    m, o := TakesLast(s, base, n, core, task, k);
  }

  lemma TakesLast(s: Sys, base: nat, n: nat, core: nat, task: nat, k: nat) returns (m: Sys, o: Obj)
    requires Inv(s, base, n) && Ready(s, core) && |At(s.objs, Home(core, k))| >= 2
    ensures TakeObj(s, core, task, k) == (m, o.addr)
    ensures Inv(m, base, n) && Ready(m, core) && o.addr > 0 && m.pages == s.pages
    ensures |At(m.objs, Home(core, k))| == |At(s.objs, Home(core, k))| - 1
    ensures At(m.objs, Owned(task)) == At(s.objs, Owned(task)) + [o] && o.home == core && Slot(m.slabs, o)
  {
    var h, p := Home(core, k), Owned(task);
    var i := |s.objs[h]| - 1;
    o := s.objs[h][i];
    InItsCache(s, base, n, h, i);
    m := TakeObj(s, core, task, k).0;
    MovedInv(s, m, base, n, h, i, p);
    MovedOut(s, m, base, n, h, i, task);
    OwnedIsLive(m, base, n, task, |m.objs[p]| - 1);
  }

  function Mallocs(c: nat, task: nat, size: nat): (cs: seq<Call>)
    ensures |cs| == c
  {
    seq(c, i => Malloc(0, task, size))
  }

  /** As long as the cache keeps an object, requests to it are guarded. */
  lemma {:induction false} MallocsRun(s: Sys, base: nat, n: nat, task: nat, size: nat, c: nat) returns (m: Sys)
    requires Inv(s, base, n) && Ready(s, 0) && size <= 1024 && c < |At(s.objs, Home(0, ObjOrder(size)))|
    ensures RunsAsWritten(s, Mallocs(c, task, size), m) && Guarded(s, Mallocs(c, task, size))
    ensures Inv(m, base, n) && Ready(m, 0)
    ensures |At(m.objs, Home(0, ObjOrder(size)))| == |At(s.objs, Home(0, ObjOrder(size)))| - c
    decreases c
  {
    if c == 0 {
      m := s;
    } else {
      var t, o := Takes(s, base, n, 0, task, size);
      m := MallocsRun(t, base, n, task, size, c - 1);
      assert Mallocs(c, task, size)[1..] == Mallocs(c - 1, task, size);
    }
  }

  /** From boot, the first requests of one size up to the last but one object of their cache are right.
      The next two are given the same memory. */
  lemma FirstCacheRunsOut(base: nat, n: nat, task: nat, size: nat) returns (c: nat, s: Sys, m: Sys, a: nat)
    requires 0 < base && 3 <= n < Buddy.MAX_PAGE_ORDER && Aligned(base, n) && size <= 1024
    ensures c + 1 == Count(Pow2(ObjOrder(size)))
    ensures RunsAsWritten(Boot(base, n), Mallocs(c, task, size), s) && Guarded(Boot(base, n), Mallocs(c, task, size))
    ensures KmallocAsWritten(s, 0, task, size) == Done((m, a)) && a != 0
    ensures KmallocAsWritten(m, 0, task, size).Done? && KmallocAsWritten(m, 0, task, size).value.1 == a
    ensures !Conserved(m.objs, m.slabs) && Region(a, a + Pow2(ObjOrder(size))) in Live(m)
  {
    var r := BootReady(base, n, task, size);
    c := Count(Pow2(ObjOrder(size))) - 1;
    s := MallocsRun(r, base, n, task, size, c);
    SameRun(Boot(base, n), r, Mallocs(c, task, size), s);
    m, a := RunsOut(s, base, n, task, size);
  }

  lemma SameRun(b: Sys, r: Sys, cs: seq<Call>, m: Sys)
    requires cs != [] && cs[0].Malloc? && Guard(b, cs[0]) && StepAsWritten(b, cs[0]) == StepAsWritten(r, cs[0])
    requires RunsAsWritten(r, cs, m) && Guarded(r, cs)
    ensures RunsAsWritten(b, cs, m) && Guarded(b, cs)
  {
  }

  lemma RunsOut(s: Sys, base: nat, n: nat, task: nat, size: nat) returns (m: Sys, a: nat)
    requires Inv(s, base, n) && Ready(s, 0) && size <= 1024 && |At(s.objs, Home(0, ObjOrder(size)))| == 1
    ensures KmallocAsWritten(s, 0, task, size) == Done((m, a)) && a != 0
    ensures KmallocAsWritten(m, 0, task, size).Done? && KmallocAsWritten(m, 0, task, size).value.1 == a
    ensures !Conserved(m.objs, m.slabs) && Region(a, a + Pow2(ObjOrder(size))) in Live(m)
  {
    m, a := HandsOutTwice(s, base, n, 0, task, size);
  }

  /** A task that has been given two objects on core 0. */
  lemma TwoObjects(base: nat, n: nat, task: nat, size: nat) returns (s: Sys, x: Obj, m: Sys, y: Obj)
    requires 0 < base && 3 <= n < Buddy.MAX_PAGE_ORDER && Aligned(base, n) && size <= 1024
    ensures KmallocAsWritten(Boot(base, n), 0, task, size) == Done((s, x.addr)) && Inv(s, base, n)
    ensures KmallocAsWritten(s, 0, task, size) == Done((m, y.addr)) && Inv(m, base, n)
    ensures At(s.objs, Owned(task)) == [x] && At(m.objs, Owned(task)) == [x, y]
    ensures x.home == y.home == 0 && x.addr > 0 && y.addr > 0 && x.addr != y.addr && FreeCount(m, base, n) > 0
  {
    var r := BootReady(base, n, task, size);
    s, x := Takes(r, base, n, 0, task, size);
    m, y := Takes(s, base, n, 0, task, size);
    assert [] + [x] == [x] && [x] + [y] == [x, y];
    TwoAddresses(m, base, n, task, x, y);
  }

  lemma TwoAddresses(s: Sys, base: nat, n: nat, task: nat, x: Obj, y: Obj)
    requires Layered(s, base, n) && At(s.objs, Owned(task)) == [x, y]
    ensures x.addr != y.addr
  {
    assert Look(ObjectLists);
    var l := s.objs[Owned(task)];
    assert l[0] == x && l[1] == y;
    SlotInPage(s.slabs, x);
    SlotsApart(s.slabs, x, y);
  }

  /** The code as it is loses an object: a task allocates two on core 0 and frees the second while it
      runs on core 1. */
  lemma LostObject(base: nat, n: nat, task: nat, size: nat) returns (s: Sys, x: Obj, m: Sys, y: Obj, r: Sys)
    requires 0 < base && 3 <= n < Buddy.MAX_PAGE_ORDER && Aligned(base, n) && size <= 1024
    ensures KmallocAsWritten(Boot(base, n), 0, task, size) == Done((s, x.addr))
    ensures KmallocAsWritten(s, 0, task, size) == Done((m, y.addr))
    ensures KfreeAsWritten(m, 1, task, y.addr) == Done(r)
    ensures Slot(r.slabs, y) && forall q :: q in r.objs ==> y !in r.objs[q]
  {
    s, x, m, y := TwoObjects(base, n, task, size);
    WithRecordsKeeps(m, base, n, 1);
    var o, t;
    r, o, t := KfreeCases(m, base, n, 1, task, y.addr);
  }

  /** It frees an object that is held: a task allocates two and frees the first. */
  lemma WrongObject(base: nat, n: nat, task: nat, size: nat) returns (s: Sys, x: Obj, m: Sys, y: Obj, r: Sys)
    requires 0 < base && 3 <= n < Buddy.MAX_PAGE_ORDER && Aligned(base, n) && size <= 1024
    ensures KmallocAsWritten(Boot(base, n), 0, task, size) == Done((s, x.addr))
    ensures KmallocAsWritten(s, 0, task, size) == Done((m, y.addr)) && x != y
    ensures KfreeAsWritten(m, 0, task, x.addr) == Done(r)
    ensures At(r.objs, Owned(task)) == [x] && y in At(r.objs, Home(0, y.order))
  {
    s, x, m, y := TwoObjects(base, n, task, size);
    var o, t;
    r, o, t := KfreeCases(m, base, n, 0, task, x.addr);
    SecondMoved(m.objs, Owned(task), Home(0, y.order), x, y);
  }

  lemma SecondMoved(l: Lists, p: Place, h: Place, x: Obj, y: Obj)
    requires At(l, p) == [x, y] && p != h
    ensures p in l && At(Move(l, p, 1, h), p) == [x] && y in At(Move(l, p, 1, h), h)
  {
    var c := Move(l, p, 1, h)[h];
    assert c[|c| - 1] == y;
  }

  /** It leaves an object both held and free: a task allocates one and frees it. */
  lemma KeptObject(base: nat, n: nat, task: nat, size: nat) returns (s: Sys, x: Obj, r: Sys)
    requires 0 < base && 3 <= n < Buddy.MAX_PAGE_ORDER && Aligned(base, n) && size <= 1024
    ensures KmallocAsWritten(Boot(base, n), 0, task, size) == Done((s, x.addr))
    ensures KfreeAsWritten(s, 0, task, x.addr) == Done(r)
    ensures x in At(r.objs, Owned(task)) && x in At(r.objs, Home(0, x.order))
  {
    var m, y, o, t;
    s, x, m, y := TwoObjects(base, n, task, size);
    r, o, t := KfreeCases(s, base, n, 0, task, x.addr);
  }
}
