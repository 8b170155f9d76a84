/** kmalloc and kfree over the structures in memory: the page allocator's lists and the object lists
    of every core and task. Each call is shown to be the step of module Kmalloc. */
module KernelMemory {
  import opened Folding
  import opened Links
  import opened Dyadic
  import opened Slub
  import opened SlubLists
  import opened Caches
  import Buddy = BuddyLists
  import PageAlloc
  import K = Kmalloc

  /** The invariants of the two layers, kept folded: a proof that works on one looks inside first. */
  ghost predicate PagesOk(l: PageAlloc.Allocator)
    reads l, l.Repr
  {
    && |l.view| == Buddy.MAX_PAGE_ORDER + 1 && l in l.Repr
    && forall z {:trigger Look(z)} :: Look(z) && z == l ==> l.Valid()
  }

  ghost predicate ObjsOk(l: ObjLists)
    reads l, l.Repr
  {
    && l.lists.Keys == l.view.Keys && l in l.Repr
    && forall z {:trigger Look(z)} :: Look(z) && z == l ==> l.Valid()
  }

  lemma CarveNext(page: nat, k: nat, core: nat, i: nat)
    requires Served(k) && i < Count(Pow2(k))
    ensures var c := Carve(page, k, core);
            c[..i + 1] == if i == 0 then [Obj(page, k, core)]
                          else c[..i] + [Obj(c[..i][i - 1].addr + Pow2(k), k, core)]
  {
    assert i > 0 ==> Offset(i, Pow2(k)) == Offset(i - 1, Pow2(k)) + Pow2(k);
  }

  class Kernel {
    const pages: PageAlloc.Allocator
    const objs: ObjLists
    var meta: map<nat, nat>
    ghost var slabs: Slabs

    ghost predicate Valid()
      reads this, pages, pages.Repr, objs, objs.Repr
    {
      && PagesOk(pages) && ObjsOk(objs)
      && pages.Repr !! objs.Repr && this !in pages.Repr && this !in objs.Repr
    }

    ghost function State(): K.Sys
      requires Valid()
      reads this, pages, pages.Repr, objs, objs.Repr
    {
      K.Sys(pages.view, objs.view, slabs, meta)
    }

    constructor (base: nat, n: nat)
      requires 0 < base && n < Buddy.MAX_PAGE_ORDER && Aligned(base, n)
      ensures Valid() && fresh(pages.Repr) && fresh(objs.Repr) && State() == K.Boot(base, n)
    {
      pages := new PageAlloc.Allocator(base, n);
      objs := new ObjLists();
      meta, slabs := map[], map[];
      new;
      assert Look(pages) && Look(objs);
    }

    // -------------------------------------------------------------- the two layers side by side

    /** page_alloc, as the object layer sees it. */
    method TakePages(n: nat) returns (r: nat)
      requires Valid()
      modifies pages.Repr
      ensures Valid() && fresh(pages.Repr - old(pages.Repr)) && objs.Repr == old(objs.Repr)
      ensures objs.view == old(objs.view)
      ensures (pages.view, r) == K.PageAlloc(old(pages.view), n)
    {
      assert Look(pages);
      K.PageAllocIs(pages.view, n);
      r := pages.PageAlloc(n);
    }

    /** page_free, as the object layer sees it. */
    method GivePages(a: nat, ghost base: nat, ghost n: nat)
      requires Valid() && K.Settled(pages.view, base, n)
      modifies pages.Repr
      ensures Valid() && fresh(pages.Repr - old(pages.Repr)) && objs.Repr == old(objs.Repr)
      ensures objs.view == old(objs.view)
      ensures pages.view == K.PageFree(old(pages.view), a)
    {
      assert Look(pages) && Look(PageLists);
      K.PageFreeIs(pages.view, a);
      pages.PageFree(a, base, n);
    }

    method EnsureList(p: Place)
      requires Valid()
      modifies objs
      ensures Valid() && pages.Repr == old(pages.Repr) && fresh(objs.Repr - old(objs.Repr))
      ensures pages.view == old(pages.view) && objs.view == old(objs.view)[p := At(old(objs.view), p)]
    {
      assert Look(objs);
      objs.EnsureList(p);
    }

    method AppendTo(p: Place, x: Node<Obj>)
      requires Valid() && p in objs.view && x !in objs.Repr && x !in pages.Repr && x.next == null
      modifies objs.Repr, x
      ensures Valid() && pages.Repr == old(pages.Repr) && objs.Repr == old(objs.Repr) + {x}
      ensures pages.view == old(pages.view) && x.val == old(x.val)
      ensures objs.view == old(objs.view)[p := old(objs.view)[p] + [x.val]]
    {
      assert Look(objs);
      objs.AppendTo(p, x);
    }

    /** An object that is in no list goes to the end of a list that may not exist yet. */
    method PutLast(p: Place, x: Node<Obj>)
      requires Valid() && x !in objs.Repr && x !in pages.Repr && x.next == null
      modifies objs.Repr, x
      ensures Valid() && pages.Repr == old(pages.Repr) && fresh(objs.Repr - old(objs.Repr) - {x})
      ensures x.val == old(x.val)
      ensures State() == old(State()).(objs := old(objs.view)[p := At(old(objs.view), p) + [x.val]])
    {
      EnsureList(p);
      AppendTo(p, x);
    }

    method LastOf(p: Place) returns (x: Node?<Obj>)
      requires Valid() && p in objs.view
      ensures var s := objs.view[p]; if s == [] then x == null else x != null && x.val == s[|s| - 1]
    {
      assert Look(objs);
      x := objs.LastOf(p);
    }

    method TakeLastOf(p: Place) returns (x: Node?<Obj>)
      requires Valid() && p in objs.view
      modifies objs.Repr
      ensures Valid() && pages.Repr == old(pages.Repr) && pages.view == old(pages.view)
      ensures old(objs.view)[p] == [] ==> x == null && objs.view == old(objs.view) && objs.Repr == old(objs.Repr)
      ensures var s := old(objs.view)[p];
              s != [] ==> && x != null && x in old(objs.Repr) && objs.Repr == old(objs.Repr) - {x} && x.next == null
                          && x.val == s[|s| - 1] && objs.view == old(objs.view)[p := Buddy.Cut(s, |s| - 1)]
    {
      assert Look(objs);
      x := objs.TakeLastOf(p);
    }

    method ExtractFrom(p: Place, a: nat) returns (x: Node?<Obj>)
      requires Valid() && p in objs.view && a != 0
      modifies objs.Repr
      ensures Valid() && pages.Repr == old(pages.Repr) && pages.view == old(pages.view)
      ensures var s := old(objs.view)[p]; var i := Find(s, a);
              && (i < 0 ==> x == null && objs.view == old(objs.view) && objs.Repr == old(objs.Repr))
              && (i >= 0 ==> && x != null && x in old(objs.Repr) && objs.Repr == old(objs.Repr) - {x} && x.next == null
                             && x.val == s[i] && objs.view == old(objs.view)[p := Buddy.Cut(s, i)])
    {
      assert Look(objs);
      x := objs.ExtractFrom(p, a);
    }

    // -------------------------------------------------------------- slub.c

    /** kmem_create_obj: the first object of a cache gets a new page, every other one the address
        after the last one's. */
    method CreateObj(core: nat, k: nat) returns (ok: bool)
      requires Valid() && Home(core, k) in objs.view
      modifies pages.Repr, objs.Repr
      ensures var s := old(objs.view)[Home(core, k)]; ok <==> s != [] || K.TakePage(old(pages.view)).Done?
      ensures ok ==> Valid() && fresh(pages.Repr - old(pages.Repr)) && fresh(objs.Repr - old(objs.Repr))
      ensures var h := Home(core, k); var s := old(objs.view)[h];
              ok ==> if s == [] then var (l, r) := K.TakePage(old(pages.view)).value;
                                    pages.view == l && objs.view == old(objs.view)[h := [Obj(r, k, core)]]
                     else pages.view == old(pages.view)
                          && objs.view == old(objs.view)[h := s + [Obj(s[|s| - 1].addr + Pow2(k), k, core)]]
    {
      var last := LastOf(Home(core, k));
      var addr;
      if last == null {
        addr := TakePages(1);
        if addr == 0 { return false; }
      } else {
        addr := last.val.addr + Pow2(k);
      }
      var obj := new Node(Obj(addr, k, core));
      assert [] + [obj.val] == [obj.val];
      AppendTo(Home(core, k), obj);
      return true;
    }

    /** kmem_populate_cache */
    method Populate(core: nat, k: nat) returns (ok: bool)
      requires Valid() && Served(k) && Home(core, k) in objs.view && objs.view[Home(core, k)] == []
      modifies pages.Repr, objs.Repr
      ensures var t := K.TakePage(old(pages.view));
              && (ok <==> t.Done?)
              && (ok ==> && Valid() && fresh(pages.Repr - old(pages.Repr)) && fresh(objs.Repr - old(objs.Repr))
                         && pages.view == t.value.0
                         && objs.view == old(objs.view)[Home(core, k) := Carve(t.value.1, k, core)])
    {
      ghost var t := K.TakePage(pages.view);
      ghost var r := if t.Done? then t.value.1 else 0;
      ghost var c := Carve(r, k, core);
      CarveSize(k);
      var nrObjs, i := PAGE_SIZE / Pow2(k), 0;
      ok := true;
      while i < nrObjs
        invariant 0 <= i <= nrObjs && ok && Valid()
        invariant fresh(pages.Repr - old(pages.Repr)) && fresh(objs.Repr - old(objs.Repr))
        invariant i == 0 ==> pages.view == old(pages.view)
        invariant i > 0 ==> t.Done? && pages.view == t.value.0
        invariant objs.view == old(objs.view)[Home(core, k) := c[..i]]
      {
        CarveNext(r, k, core, i);
        ok := CreateObj(core, k);
        if !ok { return; }
        i := i + 1;
      }
      assert c[..i] == c;
    }

    /** kmem_create_cache for a core's own cache. */
    method CreateCache(core: nat, k: nat) returns (ok: bool)
      requires Valid() && Home(core, k) !in objs.view && Served(k)
      modifies this, pages.Repr, objs.Repr
      ensures var t := K.AddSlab(old(State()), core, k);
              && (ok <==> t.Done?)
              && (ok ==> && Valid() && fresh(pages.Repr - old(pages.Repr)) && fresh(objs.Repr - old(objs.Repr))
                         && State() == t.value)
    {
      ghost var s, t := State(), K.TakePage(pages.view);
      EnsureList(Home(core, k));
      ok := Populate(core, k);
      if ok {
        K.AddSlabIs(s, core, k, t.value.0, t.value.1);
        slabs := slabs[t.value.1 := Slab(k, core)];
      }
    }

    /** kmem_init_caches */
    method InitCaches(core: nat) returns (ok: bool)
      requires Valid() && forall k: nat :: Home(core, k) !in objs.view
      modifies this, pages.Repr, objs.Repr
      ensures var t := K.InitCaches(old(State()), core);
              && (ok <==> t.Done?)
              && (ok ==> && Valid() && fresh(pages.Repr - old(pages.Repr)) && fresh(objs.Repr - old(objs.Repr))
                         && State() == t.value)
    {
      ok := EnsureRecords(core);
      if !ok { return; }
      ghost var t := K.AddSlabs(State(), core, MIN_ORDER);
      var i := MIN_ORDER;
      while i <= MAX_ORDER
        invariant MIN_ORDER <= i <= MAX_ORDER + 1 && ok && Valid()
        invariant fresh(pages.Repr - old(pages.Repr)) && fresh(objs.Repr - old(objs.Repr))
        invariant forall k: nat :: i <= k ==> Home(core, k) !in objs.view
        invariant t == K.AddSlabs(State(), core, i)
      {
        ok := CreateCache(core, i);
        if !ok { return; }
        i := i + 1;
      }
    }

    /** The page for a core's descriptors, taken on first use. */
    method EnsureRecords(core: nat) returns (ok: bool)
      requires Valid()
      modifies this, pages.Repr
      ensures var t := K.WithRecords(old(State()), core);
              && (ok <==> t.Done?)
              && (ok ==> && Valid() && fresh(pages.Repr - old(pages.Repr)) && objs.Repr == old(objs.Repr)
                         && State() == t.value)
    {
      if core in meta { return true; }
      var end := TakePages(1);
      if end == 0 { return false; }
      meta := meta[core := end];
      return true;
    }

    /** kmem_get_obj_order */
    static method GetObjOrder(size: nat) returns (i: nat)
      ensures i == ObjOrder(size)
    {
      i := MIN_ORDER;
      while size > Pow2(i)
        invariant MIN_ORDER <= i && OrderFrom(size, i) == ObjOrder(size)
        decreases if size > Pow2(i) then size - Pow2(i) else 0
      {
        i := i + 1;
      }
    }

    /** kmem_extract_obj_from_fl and kmem_add_to_task: the last object of the cache goes to the end
        of the task's list. */
    method TakeObj(core: nat, task: nat, k: nat) returns (addr: nat)
      requires Valid() && Home(core, k) in objs.view
      modifies this, objs.Repr
      ensures Valid() && pages.Repr == old(pages.Repr) && fresh(objs.Repr - old(objs.Repr))
      ensures (State(), addr) == K.TakeObj(old(State()), core, task, k)
    {
      ghost var l, c := objs.view, objs.view[Home(core, k)];
      var obj := TakeLastOf(Home(core, k));
      if obj == null { return 0; }
      PutLast(Owned(task), obj);
      assert objs.view == Move(l, Home(core, k), |c| - 1, Owned(task));
      addr := obj.val.addr;
    }

    /** The test slub_alloc begins with. */
    method EnsureReady(core: nat, ghost base: nat, ghost n: nat) returns (ok: bool)
      requires Valid() && K.Inv(State(), base, n)
      modifies this, pages.Repr, objs.Repr
      ensures var s := old(State());
              var t := if K.Ready(s, core) then K.Done(s) else K.InitCaches(s, core);
              && (ok <==> t.Done?)
              && (ok ==> && Valid() && fresh(pages.Repr - old(pages.Repr)) && fresh(objs.Repr - old(objs.Repr))
                         && State() == t.value && forall k :: Served(k) ==> Home(core, k) in objs.view)
    {
      ghost var s := State();
      K.CachesExist(s, base, n, core);
      if Home(core, MIN_ORDER) in objs.lists { return true; }
      K.InitCorrect(s, base, n, core);
      ok := InitCaches(core);
      if ok { K.CachesExist(State(), base, n, core); }
    }

    /** slub_alloc. Without ok the kernel has gone wrong: a core's first request found too few pages,
        or there is no cache for the size. */
    method SlubAlloc(core: nat, task: nat, size: nat, ghost base: nat, ghost n: nat) returns (ok: bool, addr: nat)
      requires Valid() && K.Inv(State(), base, n)
      modifies this, pages.Repr, objs.Repr
      ensures var t := K.SlubAlloc(old(State()), core, task, size);
              && (ok <==> t.Done?)
              && (ok ==> && Valid() && fresh(pages.Repr - old(pages.Repr)) && fresh(objs.Repr - old(objs.Repr))
                         && (State(), addr) == t.value)
    {
      addr := 0;
      ok := EnsureReady(core, base, n);
      if ok { ok, addr := AllocReady(core, task, size); }
    }

    /** slub_alloc on a core that has its caches. */
    method AllocReady(core: nat, task: nat, size: nat) returns (ok: bool, addr: nat)
      requires Valid() && forall k :: Served(k) ==> Home(core, k) in objs.view
      modifies this, objs.Repr
      ensures Valid() && pages.Repr == old(pages.Repr) && fresh(objs.Repr - old(objs.Repr))
      ensures ok <==> Served(ObjOrder(size))
      ensures ok ==> (State(), addr) == K.TakeObj(old(State()), core, task, ObjOrder(size))
    {
      var order := GetObjOrder(size);
      ok, addr := order <= MAX_ORDER, 0;
      if ok { addr := TakeObj(core, task, order); }
    }

    /** kmem_reclaim_obj, repaired where it creates a cache for another core's page: that cache is
        linked, so that it is found again. */
    method Reclaim(core: nat, obj: Node<Obj>) returns (ok: bool)
      requires Valid() && obj !in objs.Repr && obj !in pages.Repr && obj.next == null
      modifies this, pages.Repr, objs.Repr, obj
      ensures var s := old(State()); var o := old(obj.val); var q := K.HomeOf(o, core);
              var t := if q in s.objs || q.Home? then K.Done(s) else K.WithRecords(s, core);
              && (ok <==> t.Done?)
              && (ok ==> && Valid() && fresh(pages.Repr - old(pages.Repr)) && fresh(objs.Repr - old(objs.Repr) - {obj})
                         && State() == t.value.(objs := s.objs[q := At(s.objs, q) + [o]]))
    {
      var p := K.HomeOf(obj.val, core);
      if core != obj.val.home && p !in objs.lists {
        ok := EnsureRecords(core);
        if !ok { return; }
      }
      PutLast(p, obj);
      ok := true;
    }

    /** kmem_reclaim_obj as it is written. Another core's object enters a cache that is made for it
        and that nothing points to: the lists stay as they are without it. */
    method ReclaimAsWritten(core: nat, obj: Node<Obj>) returns (ok: bool)
      requires Valid() && obj !in objs.Repr && obj !in pages.Repr && obj.next == null
      modifies this, pages.Repr, objs.Repr, obj
      ensures var s := old(State()); var o := old(obj.val); var h := Home(core, o.order);
              var t := if o.home == core then K.Done(s) else K.WithRecords(s, core);
              && (ok <==> t.Done?)
              && (ok ==> && Valid() && fresh(pages.Repr - old(pages.Repr)) && fresh(objs.Repr - old(objs.Repr) - {obj})
                         && State() == t.value.(objs := if o.home == core then s.objs[h := At(s.objs, h) + [o]] else s.objs)
                         && (o.home != core ==> obj !in objs.Repr))
    {
      if core == obj.val.home {
        PutLast(Home(core, obj.val.order), obj);
        return true;
      }
      ok := EnsureRecords(core);
      if !ok { return; }
      AddToNewCache(obj);
    }

    /** kmem_create_cache without its objects, and kmem_add_obj. */
    method AddToNewCache(obj: Node<Obj>)
      requires Valid() && obj !in objs.Repr && obj !in pages.Repr && obj.next == null
      modifies obj
      ensures Valid() && State() == old(State())
    {
      var c := new ObjList();
      c.Append(obj);
    }

    /** kmem_extract_obj on the list of a task, which may not have one yet. */
    method TakeOwned(task: nat, addr: nat) returns (obj: Node?<Obj>)
      requires Valid() && addr != 0
      modifies objs.Repr
      ensures obj == null <==> !K.Owns(old(State()), task, addr)
      ensures Valid() && pages.Repr == old(pages.Repr) && fresh(objs.Repr - old(objs.Repr))
      ensures obj == null ==> State() == old(State())
      ensures obj != null ==> obj.next == null && obj !in objs.Repr && obj in old(objs.Repr)
      ensures obj != null ==>
                var s := old(State()); var l := s.objs[Owned(task)]; var i := Find(l, addr);
                obj.val == l[i] && State() == s.(objs := s.objs[Owned(task) := Buddy.Cut(l, i)])
    {
      if Owned(task) !in objs.lists { return null; }
      obj := ExtractFrom(Owned(task), addr);
    }

    /** slub_free: ok says that the kernel has not gone wrong, found that addr was the task's. */
    method SlubFree(core: nat, task: nat, addr: nat) returns (ok: bool, found: bool)
      requires Valid() && addr != 0
      modifies this, pages.Repr, objs.Repr
      ensures found <==> K.Owns(old(State()), task, addr)
      ensures !found ==> ok && Valid() && State() == old(State())
                         && fresh(pages.Repr - old(pages.Repr)) && fresh(objs.Repr - old(objs.Repr))
      ensures found ==>
                var t := K.SlubFree(old(State()), core, task, addr);
                && (ok <==> t.Done?)
                && (ok ==> && Valid() && fresh(pages.Repr - old(pages.Repr)) && fresh(objs.Repr - old(objs.Repr))
                           && State() == t.value)
    {
      ghost var s := State();
      var obj := TakeOwned(task, addr);
      found := obj != null;
      if !found { return true, false; }
      ghost var i := Find(s.objs[Owned(task)], addr);
      K.FreeInSteps(s, core, task, addr);
      ok := Reclaim(core, obj);
    }

    /** kmalloc */
    method Kmalloc(core: nat, task: nat, size: nat, ghost base: nat, ghost n: nat) returns (ok: bool, addr: nat)
      requires Valid() && K.Inv(State(), base, n)
      modifies this, pages.Repr, objs.Repr
      ensures var t := K.Kmalloc(old(State()), core, task, size);
              && (ok <==> t.Done?)
              && (ok ==> && Valid() && fresh(pages.Repr - old(pages.Repr)) && fresh(objs.Repr - old(objs.Repr))
                         && (State(), addr) == t.value)
    {
      var nr := size / PAGE_SIZE;
      if nr != 0 {
        nr := nr + if size % PAGE_SIZE != 0 then 1 else 0;
        addr := TakePages(nr);
        return true, addr;
      }
      ok, addr := SlubAlloc(core, task, size, base, n);
    }

    /** kfree */
    method Kfree(core: nat, task: nat, addr: nat, ghost base: nat, ghost n: nat) returns (ok: bool)
      requires Valid() && K.Inv(State(), base, n)
      modifies this, pages.Repr, objs.Repr
      ensures var t := K.Kfree(old(State()), core, task, addr);
              && (ok <==> t.Done?)
              && (ok ==> && Valid() && fresh(pages.Repr - old(pages.Repr)) && fresh(objs.Repr - old(objs.Repr))
                         && State() == t.value)
    {
      if addr == 0 { return true; }
      var found;
      ok, found := SlubFree(core, task, addr);
      if !found { GivePages(addr, base, n); }
    }
  }
}
