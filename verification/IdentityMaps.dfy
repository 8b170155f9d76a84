/** The loops that map a range of pages onto itself: create_id_mapping in pt.c and id_map_to_usr in
    usr_entry.c. */
module IdentityMaps {
  import opened Folding
  import opened PageTable
  import opened PageRange
  import opened TableCount
  import opened RangeCost
  import opened PageMapper

  /** i is an aligned address of page number k, in end's half; last is the number of the first page
      at or above end, which is not the last page of the half. */
  ghost predicate OnTheWay(i: bv64, end: bv64, k: nat, last: nat) {
    forall z {:trigger Look(z)} :: Look(z) && z == Way ==>
      && PageAligned(i) && InHalf(i) && Half(i) == Half(end) && PageNo(end) < 0x7FF_FFFF
      && PageNo(i) == k && EndNo(end) == last
  }

  lemma NextOnTheWay(i: bv64, end: bv64, k: nat, last: nat)
    requires OnTheWay(i, end, k, last) && k < last
    ensures OnTheWay(Bump(i), end, k + 1, last)
  {
    assert Look(Way);
    BumpKeepsHalf(i);
  }

  lemma Done(i: bv64, end: bv64, k: nat, last: nat)
    requires OnTheWay(i, end, k, last)
    ensures Below(i, end) <==> k < last
  {
    assert Look(Way);
    BelowEnd(i, end);
  }

  /** The test a mapping loop begins a turn with. */
  method InRange(i: bv64, end: bv64, ghost k: nat, ghost last: nat) returns (more: bool)
    requires OnTheWay(i, end, k, last)
    ensures more <==> k < last
  {
    Done(i, end, k, last);
    more := Below(i, end);
  }

  /** The step to the next page, and the test again. */
  method NextPage(i: bv64, end: bv64, ghost k: nat, ghost last: nat) returns (next: bv64, more: bool)
    requires OnTheWay(i, end, k, last) && k < last
    ensures OnTheWay(next, end, k + 1, last) && (more <==> k + 1 < last)
  {
    NextOnTheWay(i, end, k, last);
    next := Bump(i);
    more := InRange(next, end, k + 1, last);
  }

  /** m.Valid(), folded. */
  ghost predicate Sound(m: Mapper)
    reads m, m.Repr
  {
    forall z {:trigger Look(z)} :: Look(z) && z == m ==> m.Valid()
  }

  /** map_pa_to_va_pg of a page to itself. */
  method MapSelf(m: Mapper, i: bv64, flags: bv64) returns (ok: bool)
    requires Sound(m) && (flags == 0 || FlagsOk(flags))
    modifies m, m.Repr
    ensures Sound(m) && fresh(m.Repr - old(m.Repr))
    ensures ok <==> |old(m.pool)| >= Missing(old(m.tables), m.root.table, i)
    ensures |m.pool| == if ok then |old(m.pool)| - Missing(old(m.tables), m.root.table, i) else 0
    ensures if ok then GrownTo(old(m.tables), m.tables, m.root.table, i, 3)
            else GrownTo(old(m.tables), m.tables, m.root.table, i, 1) || GrownTo(old(m.tables), m.tables, m.root.table, i, 2)
    ensures forall v :: Leaf(m.tables, m.root.table, v) ==
              if ok && Page(v) == Page(i) then LeafEntry(i, i, OrDefault(flags)) else Leaf(old(m.tables), m.root.table, v)
  {
    assert Look(m);
    ok := m.MapPage(i, i, flags);
  }

  lemma FlagsAreNotZero(flags: bv64)
    requires FlagsOk(flags)
    ensures OrDefault(flags) == flags
  {
    assert !IsDescriptor(0);
  }

  /** Exactly the pages numbered first to k - 1 have been mapped, each to the physical page of the
      same number. */
  ghost predicate MappedUpTo(tb0: Tables, tb: Tables, root: Frame, first: nat, k: nat, flags: bv64) {
    forall z {:trigger Look(z)} :: Look(z) && z == Mapping ==>
      forall v {:trigger Leaf(tb, root, v)} :: Leaf(tb, root, v) == if first <= PageNo(v) < k then Or(Page(v), flags) else Leaf(tb0, root, v)
  }

  lemma OneMore(tb0: Tables, tb1: Tables, tb2: Tables, root: Frame, first: nat, a: bv64, end: bv64, k: nat, last: nat, flags: bv64)
    requires MappedUpTo(tb0, tb1, root, first, k, flags) && first <= k && OnTheWay(a, end, k, last) && FlagsOk(flags)
    requires forall v :: Leaf(tb2, root, v) == if Page(v) == Page(a) then LeafEntry(a, a, OrDefault(flags)) else Leaf(tb1, root, v)
    ensures MappedUpTo(tb0, tb2, root, first, k + 1, flags)
  {
    FlagsAreNotZero(flags);
    assert Look(Mapping);
    forall v ensures Leaf(tb2, root, v) == if first <= PageNo(v) < k + 1 then Or(Page(v), flags) else Leaf(tb0, root, v) {
      SameSelf(v, a, end, k, last, flags);
    }
  }

  lemma SameSelf(v: bv64, a: bv64, end: bv64, k: nat, last: nat, flags: bv64)
    requires OnTheWay(a, end, k, last)
    ensures PageNo(v) == k <==> Page(v) == Page(a)
    ensures Page(v) == Page(a) ==> LeafEntry(a, a, flags) == Or(Page(v), flags)
  {
    assert Look(Way);
    SamePageNo(v, a);
    IdentityEntry(a, flags);
  }

  lemma StillUpTo(tb0: Tables, tb1: Tables, tb2: Tables, root: Frame, first: nat, k: nat, flags: bv64)
    requires MappedUpTo(tb0, tb1, root, first, k, flags)
    requires forall v :: Leaf(tb2, root, v) == Leaf(tb1, root, v)
    ensures MappedUpTo(tb0, tb2, root, first, k, flags)
  {
    assert Look(Mapping);
  }

  /** Paid, folded. */
  ghost predicate Pays(tb0: Tables, tb: Tables, root: Frame, first: nat, k: nat, n0: nat, n: nat) {
    forall z {:trigger Look(z)} :: Look(z) && z == Payment ==> Paid(tb0, tb, root, first, k, n0, n)
  }

  /** The pages first to k - 1 have been mapped, with n0 pages for tables of which n are left. */
  ghost predicate Going(tb0: Tables, tb: Tables, root: Frame, first: nat, k: nat, flags: bv64, n0: nat, n: nat) {
    MappedUpTo(tb0, tb, root, first, k, flags) && Pays(tb0, tb, root, first, k, n0, n)
  }

  /** k is the end of the range, or the first page for which n0 pages do not suffice. */
  ghost predicate Suffices(tb0: Tables, root: Frame, first: nat, k: nat, last: nat, n0: nat) {
    forall z {:trigger Look(z)} :: Look(z) && z == Limit ==>
      && first <= k && (k <= last || k == first) && Cost(tb0, root, first, k) <= n0
      && (k < last ==> Cost(tb0, root, first, k + 1) > n0)
  }

  /** The mapping of the pages first to last - 1 has ended at page k: at the end, or where the pages no
      longer suffice. */
  ghost predicate Stopped(tb0: Tables, tb: Tables, root: Frame, first: nat, k: nat, last: nat, flags: bv64, n0: nat) {
    && MappedUpTo(tb0, tb, root, first, k, flags) && Suffices(tb0, root, first, k, last, n0)
    && (k < last ==> first <= k && Unmapped(tb, root, k))
  }

  lemma GoingFirst(tb: Tables, root: Frame, first: nat, flags: bv64, n0: nat)
    ensures Going(tb, tb, root, first, first, flags, n0, n0)
  {
    CoversNothing(tb, root, first);
  }

  lemma GoesToEnd(tb0: Tables, tb: Tables, root: Frame, first: nat, k: nat, last: nat, flags: bv64, n0: nat, n: nat)
    requires Going(tb0, tb, root, first, k, flags, n0, n) && k >= last && (k <= last || k == first)
    ensures Stopped(tb0, tb, root, first, k, last, flags, n0)
  {
    assert Look(Payment);
  }

  /** The page's tables are paid for, or the pages do not suffice. */
  lemma PaysOrStops(tb0: Tables, tb1: Tables, tb2: Tables, root: Frame, first: nat, k: nat, last: nat,
                    n0: nat, n1: nat, n2: nat, i: bv64, end: bv64, ok: bool)
    requires Pays(tb0, tb1, root, first, k, n0, n1) && OnTheWay(i, end, k, last) && k < last
    requires ok <==> n1 >= Missing(tb1, root, i)
    requires ok ==> n2 == n1 - Missing(tb1, root, i) && GrownTo(tb1, tb2, root, i, 3)
    ensures ok ==> Pays(tb0, tb2, root, first, k + 1, n0, n2)
    ensures !ok ==> first <= k && Suffices(tb0, root, first, k, last, n0)
  {
    assert Look(Payment);
    PayAt(tb0, tb1, tb2, root, first, k, n0, n1, n2, i, end, last, ok);
  }

  lemma PaysFrom(tb0: Tables, tb: Tables, root: Frame, first: nat, k: nat, n0: nat, n: nat)
    requires Pays(tb0, tb, root, first, k, n0, n)
    ensures first <= k
  {
    assert Look(Payment);
  }

  /** One turn of the loop of id_map_to_usr: page i, number k, is mapped onto itself. */
  method MapOne(m: Mapper, i: bv64, end: bv64, flags: bv64, ghost k: nat, ghost last: nat, ghost tb0: Tables, ghost first: nat, ghost n0: nat)
    returns (ok: bool)
    requires Sound(m) && FlagsOk(flags) && OnTheWay(i, end, k, last) && k < last
    requires Going(tb0, m.tables, m.root.table, first, k, flags, n0, |m.pool|)
    modifies m, m.Repr
    ensures Sound(m) && fresh(m.Repr - old(m.Repr))
    ensures ok ==> Going(tb0, m.tables, m.root.table, first, k + 1, flags, n0, |m.pool|)
    ensures !ok ==> Stopped(tb0, m.tables, m.root.table, first, k, last, flags, n0)
  {
    ghost var was, n1 := m.tables, |m.pool|;
    PaysFrom(tb0, was, m.root.table, first, k, n0, n1);
    ok := MapSelf(m, i, flags);
    PaysOrStops(tb0, was, m.tables, m.root.table, first, k, last, n0, n1, |m.pool|, i, end, ok);
    if ok {
      OneMore(tb0, was, m.tables, m.root.table, first, i, end, k, last, flags);
    } else {
      StillUpTo(tb0, was, m.tables, m.root.table, first, k, flags);
      StopsAt(was, m.tables, m.root.table, i, end, k, last);
    }
  }

  /** Page k has no translation. */
  ghost predicate Unmapped(tb: Tables, root: Frame, k: nat) {
    forall z {:trigger Look(z)} :: Look(z) && z == Gap ==> exists v :: PageNo(v) == k && Leaf(tb, root, v) == 0
  }

  lemma StopsAt(tb1: Tables, tb2: Tables, root: Frame, i: bv64, end: bv64, k: nat, last: nat)
    requires OnTheWay(i, end, k, last) && Missing(tb1, root, i) > 0
    requires forall v :: Leaf(tb2, root, v) == Leaf(tb1, root, v)
    ensures Unmapped(tb2, root, k)
  {
    assert Look(Way);
    assert Leaf(tb1, root, i) == 0;
  }

  lemma PayAt(tb0: Tables, tb1: Tables, tb2: Tables, root: Frame, first: nat, k: nat, n0: nat, n1: nat, n2: nat,
              va: bv64, end: bv64, last: nat, ok: bool)
    requires Paid(tb0, tb1, root, first, k, n0, n1) && OnTheWay(va, end, k, last)
    requires ok <==> n1 >= Missing(tb1, root, va)
    requires ok ==> n2 == n1 - Missing(tb1, root, va) && GrownTo(tb1, tb2, root, va, 3)
    ensures ok <==> Cost(tb0, root, first, k + 1) <= n0
    ensures ok ==> Paid(tb0, tb2, root, first, k + 1, n0, n2)
  {
    assert Look(Way);
    PayOne(tb0, tb1, tb2, root, first, k, n0, n1, n2, va, ok);
  }

  /** The turn, and the step to the next page. */
  method Turn(m: Mapper, i: bv64, end: bv64, flags: bv64, ghost k: nat, ghost last: nat, ghost tb0: Tables, ghost first: nat, ghost n0: nat)
    returns (ok: bool, next: bv64, more: bool)
    requires Sound(m) && FlagsOk(flags) && OnTheWay(i, end, k, last) && k < last
    requires Going(tb0, m.tables, m.root.table, first, k, flags, n0, |m.pool|)
    modifies m, m.Repr
    ensures Sound(m) && fresh(m.Repr - old(m.Repr))
    ensures ok ==> Going(tb0, m.tables, m.root.table, first, k + 1, flags, n0, |m.pool|)
    ensures !ok ==> Stopped(tb0, m.tables, m.root.table, first, k, last, flags, n0)
    ensures ok ==> OnTheWay(next, end, k + 1, last) && (more <==> k + 1 < last)
  {
    next, more := NextPage(i, end, k, last);
    ok := MapOne(m, i, end, flags, k, last, tb0, first, n0);
  }

  /** The loop of id_map_to_usr. */
  method MapPages(m: Mapper, start: bv64, end: bv64, flags: bv64, ghost first: nat, ghost last: nat)
    returns (ghost k: nat)
    requires Sound(m) && FlagsOk(flags) && OnTheWay(start, end, first, last)
    modifies m, m.Repr
    ensures Sound(m) && fresh(m.Repr - old(m.Repr))
    ensures Stopped(old(m.tables), m.tables, m.root.table, first, k, last, flags, |old(m.pool)|)
  {
    var i := start;
    k := first;
    GoingFirst(m.tables, m.root.table, first, flags, |m.pool|);
    var more := InRange(i, end, k, last);
    while more
      invariant Sound(m) && fresh(m.Repr - old(m.Repr)) && OnTheWay(i, end, k, last)
      invariant first <= k && (k <= last || k == first) && (more <==> k < last)
      invariant Going(old(m.tables), m.tables, m.root.table, first, k, flags, |old(m.pool)|, |m.pool|)
      decreases last - k
    {
      var ok;
      ok, i, more := Turn(m, i, end, flags, k, last, old(m.tables), first, |old(m.pool)|);
      if !ok { return; }
      k := k + 1;
    }
    GoesToEnd(old(m.tables), m.tables, m.root.table, first, k, last, flags, |old(m.pool)|, |m.pool|);
  }

  /** n0 pages suffice to create the tables missing for the range up to page p. */
  ghost predicate Affords(tb0: Tables, root: Frame, first: nat, p: nat, n0: nat) {
    Cost(tb0, root, first, p + 1) <= n0
  }

  /** Of the pages first to last - 1 exactly those have been mapped, each to the physical page of the
      same number, that n0 pages suffice for. */
  ghost predicate MappedWithin(tb0: Tables, tb: Tables, root: Frame, first: nat, last: nat, flags: bv64, n0: nat) {
    forall v :: Leaf(tb, root, v) ==
      if first <= PageNo(v) < last && Affords(tb0, root, first, PageNo(v), n0) then Or(Page(v), flags) else Leaf(tb0, root, v)
  }

  /** Every page from first to last - 1 is mapped to the physical page of its number. */
  ghost predicate AllMapped(tb: Tables, root: Frame, first: nat, last: nat, flags: bv64) {
    forall v :: first <= PageNo(v) < last ==> Leaf(tb, root, v) == Or(Page(v), flags)
  }

  /** Where the pages no longer suffice, they do not suffice for anything behind either. */
  lemma SufficesUpTo(tb0: Tables, root: Frame, first: nat, k: nat, last: nat, n0: nat, p: nat)
    requires first <= p < last <= 0x800_0000 && first <= k && (k <= last || k == first) && Cost(tb0, root, first, k) <= n0
    requires k < last ==> Cost(tb0, root, first, k + 1) > n0
    ensures Affords(tb0, root, first, p, n0) <==> p < k
  {
    if p < k { CostGrows(tb0, root, first, p + 1, k); } else { CostGrows(tb0, root, first, k + 1, p + 1); }
  }

  lemma StopsWithin(tb0: Tables, tb: Tables, root: Frame, first: nat, k: nat, last: nat, flags: bv64, n0: nat)
    requires Stopped(tb0, tb, root, first, k, last, flags, n0) && last <= 0x800_0000
    ensures MappedWithin(tb0, tb, root, first, last, flags, n0)
  {
    assert Look(Limit) && Look(Mapping);
    forall p | first <= p < last ensures Affords(tb0, root, first, p, n0) <==> p < k {
      SufficesUpTo(tb0, root, first, k, last, n0, p);
    }
  }

  lemma StopsShort(tb: Tables, root: Frame, first: nat, k: nat, last: nat, flags: bv64)
    requires first <= k < last && Unmapped(tb, root, k) && IsDescriptor(flags)
    ensures !AllMapped(tb, root, first, last, flags)
  {
    assert Look(Gap);
    var v :| PageNo(v) == k && Leaf(tb, root, v) == 0;
    NotZero(Page(v), flags);
  }

  lemma StopsFull(tb0: Tables, tb: Tables, root: Frame, first: nat, k: nat, last: nat, flags: bv64)
    requires MappedUpTo(tb0, tb, root, first, k, flags) && last <= k
    ensures AllMapped(tb, root, first, last, flags)
  {
    assert Look(Mapping);
  }

  lemma SufficesForAll(tb0: Tables, root: Frame, first: nat, k: nat, last: nat, n0: nat)
    requires Suffices(tb0, root, first, k, last, n0) && last <= 0x800_0000
    ensures Cost(tb0, root, first, last) <= n0 <==> k >= last
  {
    assert Look(Limit);
    if k < last {
      CostGrows(tb0, root, first, k + 1, last);
    } else if first < last {
      assert k == last;
    } else {
      NoCost(tb0, root, first, last);
    }
  }

  /** All pages of the range are mapped exactly when the pages suffice for all of it. */
  lemma StopsAll(tb0: Tables, tb: Tables, root: Frame, first: nat, k: nat, last: nat, flags: bv64, n0: nat)
    requires Stopped(tb0, tb, root, first, k, last, flags, n0) && last <= 0x800_0000 && IsDescriptor(flags)
    ensures AllMapped(tb, root, first, last, flags) <==> Cost(tb0, root, first, last) <= n0
  {
    SufficesForAll(tb0, root, first, k, last, n0);
    if k < last {
      StopsShort(tb, root, first, k, last, flags);
    } else {
      StopsFull(tb0, tb, root, first, k, last, flags);
    }
  }

  lemma NotZero(a: bv64, flags: bv64)
    requires IsDescriptor(flags)
    ensures Or(a, flags) != 0
  {
  }

  lemma PageIsLow(v: bv64)
    ensures PageAligned(Page(v)) && Page(v) <= ADDR_MASK
  {
  }

  /** The entry leads to the physical page of v's number and has these attribute fields. */
  predicate Identity(e: bv64, v: bv64, fields: Attributes) {
    IsDescriptor(e) && HwAddr(e) == v & 0x7F_FFFF_F000 && AttributesOf(e) == fields
  }

  lemma IdentityFields(v: bv64, flags: bv64)
    requires FlagsOk(flags)
    ensures Identity(Or(Page(v), flags), v, AttributesOf(flags)) && AttrBits(Or(Page(v), flags)) == flags
  {
    PageIsLow(v);
    OrTranslates(Page(v), flags);
  }

  /** The pages mapped are normal memory, inner shareable, accessed, open to EL1 alone for data, and not
      for execution at EL1 but at EL0. */
  ghost predicate UserPages(tb0: Tables, tb: Tables, root: Frame, first: nat, last: nat, n0: nat) {
    forall v :: first <= PageNo(v) < last && Affords(tb0, root, first, PageNo(v), n0) ==>
                  Identity(Leaf(tb, root, v), v, Attributes(3, 1, 0, 0, 3, 1, 0, 1, 0))
  }

  lemma AreUserPages(tb0: Tables, tb: Tables, root: Frame, first: nat, last: nat, n0: nat)
    requires MappedWithin(tb0, tb, root, first, last, PTE_FLAGS_USER_GENERIC, n0)
    ensures UserPages(tb0, tb, root, first, last, n0)
  {
    DefaultFlagsOk();
    FlagWords();
    forall v ensures Identity(Or(Page(v), PTE_FLAGS_USER_GENERIC), v, Attributes(3, 1, 0, 0, 3, 1, 0, 1, 0)) {
      IdentityFields(v, PTE_FLAGS_USER_GENERIC);
    }
  }

  /** id_map_to_usr: the pages of [start, end) are mapped, one after the other, each to the physical
      page of the same number; for kernel addresses that is the identity on the address minus
      KERNEL_START. A page is mapped exactly if the page allocator has enough pages for the tables
      missing up to it, so all of them are exactly if it has enough for those the range is missing. */
  method IdMapToUsr(m: Mapper, start: bv64, end: bv64)
    requires m.Valid() && PageAligned(start) && InHalf(start) && Half(start) == Half(end) && PageNo(end) < 0x7FF_FFFF
    modifies m, m.Repr
    ensures m.Valid() && fresh(m.Repr - old(m.Repr))
    ensures MappedWithin(old(m.tables), m.tables, m.root.table, PageNo(start), EndNo(end), PTE_FLAGS_USER_GENERIC, |old(m.pool)|)
    ensures UserPages(old(m.tables), m.tables, m.root.table, PageNo(start), EndNo(end), |old(m.pool)|)
    ensures AllMapped(m.tables, m.root.table, PageNo(start), EndNo(end), PTE_FLAGS_USER_GENERIC)
            <==> Cost(old(m.tables), m.root.table, PageNo(start), EndNo(end)) <= |old(m.pool)|
  {
    DefaultFlagsOk();
    ghost var first, last := PageNo(start), EndNo(end);
    ghost var k := MapPages(m, start, end, PTE_FLAGS_USER_GENERIC, first, last);
    assert Look(m);
    StopsWithin(old(m.tables), m.tables, m.root.table, first, k, last, PTE_FLAGS_USER_GENERIC, |old(m.pool)|);
    StopsAll(old(m.tables), m.tables, m.root.table, first, k, last, PTE_FLAGS_USER_GENERIC, |old(m.pool)|);
    AreUserPages(old(m.tables), m.tables, m.root.table, first, last, |old(m.pool)|);
  }

  // ---------------------------------------------------------------- create_id_mapping

  /** Of the pages first to k - 1 exactly those are mapped, each to itself, for which n0 pages suffice to
      create the tables of the range up to it; no other page is mapped. Folded. */
  ghost predicate TriedUpTo(tb: Tables, root: Frame, first: nat, k: nat, entry: bv64, n0: nat) {
    forall z {:trigger Look(z)} :: Look(z) && z == Mapping ==>
      forall v {:trigger Leaf(tb, root, v)} :: Leaf(tb, root, v) ==
        if first <= PageNo(v) < k && EmptyAffords(first, PageNo(v), n0) then Or(Page(v), entry) else 0
  }

  lemma TriedOne(tb1: Tables, tb2: Tables, root: Frame, first: nat, a: bv64, end: bv64, k: nat, last: nat, entry: bv64, n0: nat, ok: bool)
    requires TriedUpTo(tb1, root, first, k, entry, n0) && first <= k && OnTheWay(a, end, k, last)
    requires ok <==> EmptyCost(first, k + 1) <= n0
    requires forall v :: Leaf(tb2, root, v) == if ok && Page(v) == Page(a) then LeafEntry(a, a, entry) else Leaf(tb1, root, v)
    ensures TriedUpTo(tb2, root, first, k + 1, entry, n0)
  {
    assert Look(Mapping);
    forall v ensures Leaf(tb2, root, v) ==
                     if first <= PageNo(v) < k + 1 && EmptyAffords(first, PageNo(v), n0) then Or(Page(v), entry) else 0 {
      SameSelf(v, a, end, k, last, entry);
    }
  }

  /** Usable flags, and what they come to in an entry, folded. */
  ghost predicate FlagChoice(flags: bv64, entry: bv64) {
    forall z {:trigger Look(z)} :: Look(z) && z == Choice ==> (flags == 0 || FlagsOk(flags)) && OrDefault(flags) == entry
  }

  /** Where create_id_mapping stands after the pages first to k - 1, folded. */
  ghost predicate Trying(tb0: Tables, tb: Tables, root: Frame, first: nat, k: nat, entry: bv64, n0: nat, n: nat) {
    forall z {:trigger Look(z)} :: Look(z) && z == Progress ==>
      EmptyTree(tb0, root) && TriedUpTo(tb, root, first, k, entry, n0) && Tried(tb0, tb, root, first, k, n0, n)
  }

  lemma TryingNext(tb0: Tables, tb1: Tables, tb2: Tables, root: Frame, first: nat, k: nat, last: nat, entry: bv64,
                   n0: nat, n1: nat, n2: nat, i: bv64, end: bv64, ok: bool)
    requires Trying(tb0, tb1, root, first, k, entry, n0, n1) && OnTheWay(i, end, k, last) && k < last
    requires ok <==> n1 >= Missing(tb1, root, i)
    requires n2 == if ok then n1 - Missing(tb1, root, i) else 0
    requires if ok then GrownTo(tb1, tb2, root, i, 3) else GrownTo(tb1, tb2, root, i, 1) || GrownTo(tb1, tb2, root, i, 2)
    requires forall v :: Leaf(tb2, root, v) == if ok && Page(v) == Page(i) then LeafEntry(i, i, entry) else Leaf(tb1, root, v)
    ensures Trying(tb0, tb2, root, first, k + 1, entry, n0, n2)
  {
    assert Look(Progress);
    TryNextAt(tb0, tb1, tb2, root, first, k, n0, n1, n2, i, end, last, ok);
    TriedOne(tb1, tb2, root, first, i, end, k, last, entry, n0, ok);
  }

  /** map_pa_to_va_pg of page i, number k, to itself, whatever comes of it. */
  method TryAt(m: Mapper, i: bv64, end: bv64, flags: bv64, ghost entry: bv64, ghost k: nat, ghost last: nat, ghost first: nat,
               ghost tb0: Tables, ghost n0: nat)
    requires Sound(m) && FlagChoice(flags, entry) && OnTheWay(i, end, k, last) && k < last
    requires Trying(tb0, m.tables, m.root.table, first, k, entry, n0, |m.pool|)
    modifies m, m.Repr
    ensures Sound(m) && fresh(m.Repr - old(m.Repr))
    ensures Trying(tb0, m.tables, m.root.table, first, k + 1, entry, n0, |m.pool|)
  {
    ghost var was, n1 := m.tables, |m.pool|;
    assert Look(Choice);
    var ok := MapSelf(m, i, flags);
    TryingNext(tb0, was, m.tables, m.root.table, first, k, last, entry, n0, n1, |m.pool|, i, end, ok);
  }

  lemma TryNextAt(tb0: Tables, tb1: Tables, tb2: Tables, root: Frame, first: nat, k: nat, n0: nat, n1: nat, n2: nat,
                  va: bv64, end: bv64, last: nat, ok: bool)
    requires EmptyTree(tb0, root) && Tried(tb0, tb1, root, first, k, n0, n1) && OnTheWay(va, end, k, last) && k < last
    requires ok <==> n1 >= Missing(tb1, root, va)
    requires n2 == if ok then n1 - Missing(tb1, root, va) else 0
    requires if ok then GrownTo(tb1, tb2, root, va, 3) else GrownTo(tb1, tb2, root, va, 1) || GrownTo(tb1, tb2, root, va, 2)
    ensures first <= k && (ok <==> EmptyCost(first, k + 1) <= n0)
    ensures Tried(tb0, tb2, root, first, k + 1, n0, n2)
  {
    assert Look(Way);
    CostOfEmpty(tb0, root, first, k + 1);
    TryNext(tb0, tb1, tb2, root, first, k, n0, n1, n2, va, ok);
  }

  /** All that holds when create_id_mapping comes to page i, number k, folded. */
  ghost predicate AtPage(m: Mapper, i: bv64, end: bv64, k: nat, last: nat, first: nat, entry: bv64, tb0: Tables, n0: nat)
    reads m, m.Repr
  {
    forall z {:trigger Look(z)} :: Look(z) && z == Turns ==>
      Sound(m) && OnTheWay(i, end, k, last) && Trying(tb0, m.tables, m.root.table, first, k, entry, n0, |m.pool|)
  }

  /** One turn of create_id_mapping's loop, which does not look at the result. */
  method TryOne(m: Mapper, i: bv64, end: bv64, flags: bv64, ghost entry: bv64, ghost k: nat, ghost last: nat, ghost first: nat,
                ghost tb0: Tables, ghost n0: nat)
    returns (next: bv64, more: bool, ghost k1: nat)
    requires AtPage(m, i, end, k, last, first, entry, tb0, n0) && FlagChoice(flags, entry) && k < last
    modifies m, m.Repr
    ensures AtPage(m, next, end, k1, last, first, entry, tb0, n0) && fresh(m.Repr - old(m.Repr))
    ensures k1 == k + 1 && (more <==> k1 < last)
  {
    k1 := k + 1;
    assert Look(Turns);
    next, more := NextPage(i, end, k, last);
    TryAt(m, i, end, flags, entry, k, last, first, tb0, n0);
  }

  lemma IntRange(a: bv64)
    requires a <= 0x7FFF_F000
    ensures Half(a) == 0 && Field(a, 1) < 2
  {
  }

  lemma SmallNumber(a: bv64)
    requires Field(a, 1) < 2
    ensures PageNo(a) < 0x7FF_FFFF
  {
    LessOfBv9(Field(a, 1), 2);
    PageNoIs(a);
  }

  /** The loop of create_id_mapping. */
  method TryPages(m: Mapper, start: bv64, end: bv64, flags: bv64, ghost entry: bv64, ghost first: nat, ghost last: nat,
                  ghost tb0: Tables, ghost n0: nat)
    returns (ghost k: nat, ghost i: bv64)
    requires AtPage(m, start, end, first, last, first, entry, tb0, n0) && FlagChoice(flags, entry)
    requires OnTheWay(start, end, first, last)
    modifies m, m.Repr
    ensures AtPage(m, i, end, k, last, first, entry, tb0, n0) && fresh(m.Repr - old(m.Repr))
    ensures k == if last < first then first else last
  {
    var j := start;
    k := first;
    var more := InRange(j, end, k, last);
    while more
      invariant AtPage(m, j, end, k, last, first, entry, tb0, n0) && fresh(m.Repr - old(m.Repr))
      invariant first <= k && (k <= last || k == first) && (more <==> k < last)
      decreases last - k
    {
      j, more, k := TryOne(m, j, end, flags, entry, k, last, first, tb0, n0);
    }
    i := j;
  }

  /** The addresses of create_id_mapping fit its int loop counter with a page to spare. */
  lemma IntAddresses(start: bv64, end: bv64, flags: bv64)
    requires PageAligned(start) && start <= 0x7FFF_F000 && end <= 0x7FFF_F000 && (flags == 0 || FlagsOk(flags))
    ensures OnTheWay(start, end, PageNo(start), EndNo(end)) && FlagChoice(flags, OrDefault(flags))
    ensures IsDescriptor(OrDefault(flags)) && EndNo(end) <= 0x800_0000
  {
    IntRange(start);
    IntRange(end);
    SmallNumber(end);
    DefaultFlagsOk();
  }

  /** create_pt for the root of an empty tree. */
  method CreateRoot(pool: seq<bv64>, ghost first: nat, ghost entry: bv64) returns (m: Mapper?)
    requires PoolOk(pool, map[])
    ensures m == null <==> pool == []
    ensures m != null ==> && fresh(m) && fresh(m.Repr) && Sound(m) && |m.pool| == |pool| - 1
                          && Trying(m.tables, m.tables, m.root.table, first, first, entry, |m.pool|, |m.pool|)
  {
    if pool == [] { return null; }
    assert Usable(pool[0], map[]);
    forall j | 1 <= j < |pool| ensures TableAddr(pool[j]) { assert Usable(pool[j], map[]); }
    m := new Mapper(pool[0], pool[1..]);
    EmptyTreeIf(m.tables, m.root.table);
    TryFirst(m.tables, m.root.table, first, |m.pool|);
  }

  method MapFresh(pool: seq<bv64>, start: bv64, end: bv64, flags: bv64, ghost entry: bv64, ghost first: nat, ghost last: nat)
    returns (m: Mapper?)
    requires PoolOk(pool, map[]) && FlagChoice(flags, entry) && OnTheWay(start, end, first, last)
    ensures m == null <==> pool == []
    ensures m != null ==> && fresh(m) && fresh(m.Repr) && Sound(m)
                          && TriedUpTo(m.tables, m.root.table, first, if last < first then first else last, entry, |pool| - 1)
  {
    m := CreateRoot(pool, first, entry);
    if m != null {
      ghost var k, i := TryPages(m, start, end, flags, entry, first, last, m.tables, |m.pool|);
      assert Look(Turns) && Look(Progress);
    }
  }

  ghost predicate EmptyAffords(first: nat, p: nat, n0: nat) { EmptyCost(first, p + 1) <= n0 }

  /** The pages mapped in a tree that was empty, and when that is all of the range. */
  ghost predicate CreatedWithin(tb: Tables, root: Frame, first: nat, last: nat, entry: bv64, n0: nat) {
    forall v :: Leaf(tb, root, v) ==
      if first <= PageNo(v) < last && EmptyAffords(first, PageNo(v), n0) then Or(Page(v), entry) else 0
  }

  lemma CreatedExactly(tb: Tables, root: Frame, first: nat, k: nat, last: nat, entry: bv64, n0: nat)
    requires TriedUpTo(tb, root, first, k, entry, n0) && k == if last < first then first else last
    requires last <= 0x800_0000 && IsDescriptor(entry)
    ensures CreatedWithin(tb, root, first, last, entry, n0)
    ensures AllMapped(tb, root, first, last, entry) <==> EmptyCost(first, last) <= n0
  {
    assert CreatedWithin(tb, root, first, last, entry, n0) by { assert Look(Mapping); }
    if first < last {
      if EmptyAffords(first, last - 1, n0) {
        CreatedAll(tb, root, first, last, entry, n0);
      } else {
        CreatedNotLast(tb, root, first, last, entry, n0);
      }
    }
  }

  lemma CreatedAll(tb: Tables, root: Frame, first: nat, last: nat, entry: bv64, n0: nat)
    requires CreatedWithin(tb, root, first, last, entry, n0) && first < last && EmptyAffords(first, last - 1, n0)
    ensures AllMapped(tb, root, first, last, entry)
  {
    forall p | first <= p < last ensures EmptyAffords(first, p, n0) { EmptyCostGrows(first, p, last - 1, n0); }
  }

  lemma CreatedNotLast(tb: Tables, root: Frame, first: nat, last: nat, entry: bv64, n0: nat)
    requires CreatedWithin(tb, root, first, last, entry, n0) && first < last <= 0x800_0000
    requires !EmptyAffords(first, last - 1, n0) && IsDescriptor(entry)
    ensures !AllMapped(tb, root, first, last, entry)
  {
    var v := SomeAddress(last - 1);
    NotZero(Page(v), entry);
    assert Leaf(tb, root, v) == 0;
  }

  lemma EmptyCostGrows(first: nat, j: nat, k: nat, n0: nat)
    requires first <= j <= k && EmptyAffords(first, k, n0)
    ensures EmptyAffords(first, j, n0)
  {
  }

  /** The pages mapped lead to themselves and have the attributes asked for. For flags of 0 they are normal
      memory, inner shareable, accessed, open to EL1 alone, and not for execution at EL0. */
  ghost predicate CreatedPages(tb: Tables, root: Frame, first: nat, last: nat, flags: bv64, n0: nat) {
    forall v :: first <= PageNo(v) < last && EmptyAffords(first, PageNo(v), n0) ==>
      if flags == 0 then Identity(Leaf(tb, root, v), v, Attributes(3, 1, 0, 0, 3, 1, 0, 0, 1))
      else Identity(Leaf(tb, root, v), v, AttributesOf(flags)) && AttrBits(Leaf(tb, root, v)) == flags
  }

  lemma AreCreatedPages(tb: Tables, root: Frame, first: nat, last: nat, flags: bv64, n0: nat)
    requires CreatedWithin(tb, root, first, last, OrDefault(flags), n0) && (flags == 0 || FlagsOk(flags))
    ensures CreatedPages(tb, root, first, last, flags, n0)
  {
    DefaultFlagsOk();
    DefaultIsKernel(flags);
    var f := OrDefault(flags);
    forall v ensures Identity(Or(Page(v), f), v, AttributesOf(f)) && AttrBits(Or(Page(v), f)) == f { IdentityFields(v, f); }
  }

  /** What create_id_mapping promises of its tree, when n0 pages are left for it. */
  lemma CreatedResult(m: Mapper, first: nat, k: nat, last: nat, flags: bv64, entry: bv64, n0: nat)
    requires TriedUpTo(m.tables, m.root.table, first, k, entry, n0) && k == if last < first then first else last
    requires last <= 0x800_0000 && IsDescriptor(entry) && entry == OrDefault(flags) && (flags == 0 || FlagsOk(flags))
    ensures CreatedWithin(m.tables, m.root.table, first, last, entry, n0)
    ensures CreatedPages(m.tables, m.root.table, first, last, flags, n0)
    ensures AllMapped(m.tables, m.root.table, first, last, entry) <==> EmptyCost(first, last) <= n0
  {
    CreatedExactly(m.tables, m.root.table, first, k, last, entry, n0);
    AreCreatedPages(m.tables, m.root.table, first, last, flags, n0);
  }

  /** create_id_mapping: a fresh root under which pages that start in [start, end) are mapped, each to
      itself, and no others. A page is mapped exactly if the pages left for tables suffice for the range
      up to it, so all are exactly if there is one page for the root and one for each gigabyte and each
      2-megabyte region the range touches. */
  method CreateIdMapping(pool: seq<bv64>, start: bv64, end: bv64, flags: bv64) returns (m: Mapper?)
    requires PoolOk(pool, map[]) && (flags == 0 || FlagsOk(flags))
    requires PageAligned(start) && start <= 0x7FFF_F000 && end <= 0x7FFF_F000
    ensures m == null <==> pool == []
    ensures m != null ==>
              && fresh(m) && fresh(m.Repr) && m.Valid()
              && CreatedWithin(m.tables, m.root.table, PageNo(start), EndNo(end), OrDefault(flags), |pool| - 1)
              && CreatedPages(m.tables, m.root.table, PageNo(start), EndNo(end), flags, |pool| - 1)
              && (AllMapped(m.tables, m.root.table, PageNo(start), EndNo(end), OrDefault(flags))
                  <==> |pool| >= 1 + EmptyCost(PageNo(start), EndNo(end)))
  {
    IntAddresses(start, end, flags);
    ghost var entry, first, last := OrDefault(flags), PageNo(start), EndNo(end);
    m := MapFresh(pool, start, end, flags, entry, first, last);
    if m != null {
      var t: Mapper := m;
      assert Look(t);
      CreatedResult(m, first, if last < first then first else last, last, flags, entry, |pool| - 1);
    }
  }
}
