/** The mapper of pt.c: a tree of table descriptors kept beside the raw tables. */
module PageMapper {
  import opened PageTable
  import opened PageRange
  import opened TableCount

  /** struct page_table_desc: level and pt never change; children hang on a linked list. */
  class PtDesc {
    const level: nat
    const pt: bv64
    ghost const table: Frame
    var next: PtDesc?
    var child: PtDesc?
    ghost var kids: seq<PtDesc>

    constructor (level: nat, pt: bv64)
      ensures this.level == level && this.pt == pt && table == TableOf(pt)
      ensures next == null && child == null && kids == []
    {
      this.level, this.pt, next, child, kids := level, pt, null, null, [];
      table := TableOf(pt);
    }

    /** The child list holds exactly kids, in order. */
    ghost predicate Linked()
      reads this, kids
    {
      && child == (if kids == [] then null else kids[0])
      && (forall i :: 0 <= i < |kids| ==> (kids[i].next == null <==> i == |kids| - 1))
      && (forall i :: 0 <= i < |kids| - 1 ==> kids[i].next == kids[i + 1])
    }

    /** pt_desc_add_child */
    method AddChild(c: PtDesc)
      requires Linked() && c !in kids && c.next == null
      modifies this`child, this`kids, kids`next
      ensures Linked() && kids == old(kids) + [c]
    {
      if child != null {
        var d := child;
        ghost var i := 0;
        while d.next != null
          invariant 0 <= i < |kids| && d == kids[i]
          decreases |kids| - i
        {
          d := d.next;
          i := i + 1;
        }
        d.next := c;
      } else {
        child := c;
      }
      kids := kids + [c];
    }

    /** pt_desc_get_from_parent */
    method GetChild(addr: bv64) returns (c: PtDesc?)
      requires Linked()
      ensures c != null ==> c in kids && VaToPa(c.pt) == addr
      ensures c == null ==> forall k :: k in kids ==> VaToPa(k.pt) != addr
    {
      c := child;
      ghost var i := 0;
      while c != null
        invariant 0 <= i <= |kids| && c == (if i < |kids| then kids[i] else null)
        invariant forall j :: 0 <= j < i ==> VaToPa(kids[j].pt) != addr
        decreases |kids| - i
      {
        if addr == VaToPa(c.pt) { return; }
        c := c.next;
        i := i + 1;
      }
    }
  }

  /** The tables, and the pages the allocator will hand out for new ones, zeroed and in order. */
  class Mapper {
    var tables: Tables
    var pool: seq<bv64>
    const root: PtDesc
    ghost var at: map<Frame, Place>
    ghost var desc: map<Frame, PtDesc>
    ghost var Repr: set<PtDesc>

    /** The children of table f's descriptor are the descriptors of the tables placed below f. */
    ghost predicate DescOk(f: Frame)
      requires f in desc && desc[f] in Repr && f in at
      reads this`desc, this`at, this`Repr, Repr
    {
      var d := desc[f];
      && d.table == f && d.level == at[f].level
      && (forall k :: k in d.kids ==> k in Repr) && d.Linked()
      && (forall k :: k in d.kids ==> Known(k) && k.table in at && at[k.table].parent == f)
      && (f != root.table ==>
            var p := at[f].parent; p in desc && desc[p] in Repr && d in desc[p].kids)
    }

    ghost predicate Known(d: PtDesc)
      reads this`desc
    {
      d.table in desc && desc[d.table] == d
    }

    /** The descriptors form the tree that the places describe. */
    ghost predicate Shape()
      reads this`desc, this`at, this`Repr, Repr
    {
      && at.Keys == desc.Keys && Known(root)
      && (forall f :: f in desc ==> desc[f] in Repr)
      && (forall f {:trigger DescOk(f)} :: f in desc ==> DescOk(f))
    }

    ghost predicate AddressesOk()
      reads this`desc
    {
      forall f {:trigger AddressOk(desc[f])} :: f in desc ==> AddressOk(desc[f])
    }

    ghost predicate Valid()
      reads this, Repr
    {
      Shape() && Tree(tables, at, root.table) && Readable(tables, at) && AddressesOk() && PoolOk(pool, tables)
    }

    /** An empty root table of level 1, as create_pt or usr_init sets it up. */
    constructor (pt: bv64, pool: seq<bv64>)
      requires TableAddr(pt) && forall i :: 0 <= i < |pool| ==> TableAddr(pool[i]) && TableOf(pool[i]) != TableOf(pt)
      requires forall i, j :: 0 <= i < j < |pool| ==> TableOf(pool[i]) != TableOf(pool[j])
      ensures Valid() && fresh(Repr) && this.pool == pool && root.pt == pt
      ensures forall va :: Leaf(tables, root.table, va) == 0 && Missing(tables, root.table, va) == 2
    {
      var d := new PtDesc(1, pt);
      root := d;
      this.pool := pool;
      tables := map[TableOf(pt) := Zeroed()];
      at := map[d.table := Place(1, Frame(0), 0)];
      desc := map[d.table := d];
      Repr := {d};
      new;
      forall va ensures Leaf(tables, root.table, va) == 0 && Missing(tables, root.table, va) == 2 {
        EmptyLeaf(tables, root.table, va);
      }
    }

    /** The non-empty slot i of d's table leads to a child descriptor. */
    method Follow(d: PtDesc, i: nat) returns (c: PtDesc?)
      requires Valid() && Known(d) && d.level < 3 && i < 512
      requires Entry(tables, d.table, i) != 0
      ensures c != null && c.table == HwNext(Entry(tables, d.table, i))
      ensures Known(c) && c.level == d.level + 1
    {
      assert DescOk(d.table) && AddressOk(desc[d.table]);
      var e := tables[TableOf(d.pt)][i];
      c := d.GetChild(ExtractAddr(e));
      assert Points(tables, at, d.table, i) && SlotReadable(tables, d.table, i);
      assert DescOk(HwNext(e)) && AddressOk(desc[HwNext(e)]);
      assert desc[HwNext(e)] in d.kids;
      assert AddressOk(desc[c.table]);
    }

    method AddDesc(d: PtDesc, nd: PtDesc, ghost slot: nat)
      requires Shape() && Known(d) && nd !in Repr && nd.level == d.level + 1 && nd.table !in desc
      requires nd.kids == [] && nd.child == null && nd.next == null
      modifies this, Repr, nd
      ensures Repr == old(Repr) + {nd} && pool == old(pool) && tables == old(tables)
      ensures desc == old(desc)[nd.table := nd]
      ensures at == old(at)[nd.table := Place(d.level + 1, d.table, slot)]
      ensures d.Linked() && d.kids == old(d.kids) + [nd] && nd.Linked() && nd.kids == []
      ensures forall e: PtDesc {:trigger e.kids} {:trigger e.child} :: e in old(desc).Values && e != d ==> e.child == old(e.child) && e.kids == old(e.kids)
      ensures forall e: PtDesc {:trigger e.next} :: e in old(desc).Values && e !in old(d.kids) ==> e.next == old(e.next)
    {
      assert DescOk(d.table);
      d.AddChild(nd);
      at := at[nd.table := Place(d.level + 1, d.table, slot)];
      desc := desc[nd.table := nd];
      Repr := Repr + {nd};
    }

    /** pt_desc_add_child for a descriptor that is in no list yet. */
    method AttachDesc(d: PtDesc, nd: PtDesc, ghost slot: nat)
      requires Shape() && Known(d) && nd !in Repr && nd.level == d.level + 1 && nd.table !in desc
      requires nd.kids == [] && nd.child == null && nd.next == null
      modifies this, Repr, nd
      ensures Shape() && Repr == old(Repr) + {nd} && pool == old(pool) && tables == old(tables)
      ensures desc == old(desc)[nd.table := nd]
      ensures at == old(at)[nd.table := Place(d.level + 1, d.table, slot)]
    {
      ghost var f, q := d.table, nd.table;
      assert DescOk(f);
      AddDesc(d, nd, slot);
      assert DescOk(q);
      assert DescOk(f);
      forall g | g in desc && g != q && g != f ensures DescOk(g) {
        OtherDescOk((this, d, q, g));
      }
    }

    /** create_pt: the next page with a descriptor that is in no list yet. */
    method CreatePt(level: nat) returns (nd: PtDesc?)
      requires Valid()
      modifies this`pool
      ensures Valid()
      ensures old(pool) == [] ==> nd == null && pool == []
      ensures old(pool) != [] ==> && nd != null && fresh(nd) && nd.level == level && nd.pt == old(pool)[0]
                                  && pool == old(pool)[1..] && AddressOk(nd) && nd.table !in desc
                                  && nd.kids == [] && nd.child == null && nd.next == null
                                  && forall i :: 0 <= i < |pool| ==> TableOf(pool[i]) != nd.table
    {
      if pool == [] { return null; }
      assert Usable(pool[0], tables);
      nd := new PtDesc(level, pool[0]);
      pool := pool[1..];
      assert forall i :: 0 <= i < |pool| ==> Usable(pool[i], tables) by {
        forall i | 0 <= i < |pool| ensures Usable(pool[i], tables) { assert Usable(old(pool)[i + 1], tables); }
      }
    }

    /** place_pt_entry and pt_desc_add_child: the new table goes below slot i of d's table. */
    method LinkTable(d: PtDesc, i: nat, nd: PtDesc, e: bv64)
      requires Valid() && Known(d) && nd !in Repr && nd.level == d.level + 1 && AddressOk(nd) && nd.table !in desc
      requires nd.kids == [] && nd.child == null && nd.next == null
      requires forall j :: 0 <= j < |pool| ==> TableOf(pool[j]) != nd.table
      requires CanHang(tables, at, root.table, d.table, i, e) && HwNext(e) == nd.table && ExtractAddr(e) == HwAddr(e)
      modifies this, Repr, nd
      ensures Valid() && Repr == old(Repr) + {nd} && pool == old(pool) && Known(nd)
      ensures tables == WithTable(old(tables), d.table, i, e)
    {
      HangKeepsAll(tables, at, root.table, d.table, i, e, pool);
      assert DescOk(d.table) && AddressOk(desc[d.table]);
      ghost var tb, places, q := tables, at, nd.table;
      AttachDesc(d, nd, i);
      assert at == places[q := Place(places[d.table].level + 1, d.table, i)];
      tables := WithTable(tables, TableOf(d.pt), i, e);
    }

    /** create_pt, place_pt_entry and pt_desc_add_child for an empty slot. */
    method NewChild(d: PtDesc, i: nat, flags: bv64) returns (nd: PtDesc?, ghost e: bv64)
      requires Valid() && Known(d) && d.level < 3 && i < 512 && FlagsOk(flags) && Entry(tables, d.table, i) == 0
      modifies this, Repr
      ensures Valid() && fresh(Repr - old(Repr))
      ensures nd == null <==> old(pool) == []
      ensures nd == null ==> pool == [] && tables == old(tables)
      ensures nd != null ==> && Known(nd) && nd.level == d.level + 1 && |pool| == |old(pool)| - 1
                             && CanHang(old(tables), old(at), root.table, d.table, i, e) && HwNext(e) == nd.table
                             && tables == WithTable(old(tables), d.table, i, e) && AttrBits(e) == flags
    {
      e := 0;
      nd := CreatePt(d.level + 1);
      if nd == null { return; }
      assert DescOk(d.table);
      var pte := PtEntry(nd.pt, flags);
      EntryRoundTrip(nd.pt, flags);
      TableTag(nd.pt, flags);
      e := pte;
      LinkTable(d, i, nd, pte);
    }

    /** The branch of the walk for an empty upper slot; null when the page allocator is empty. */
    method HangTable(d: PtDesc, va: bv64, flags: bv64, ghost tb0: Tables) returns (nd: PtDesc?)
      requires GrownTo(tb0, tables, root.table, va, d.level) && Tagged(tb0, tables, flags, None, 0)
      requires Valid() && Known(d) && 1 <= d.level < 3 && FlagsOk(flags)
      requires Walk(tables, root.table, va, d.level) == Some(d.table)
      requires Entry(tables, d.table, Index(va, d.level)) == 0
      modifies this, Repr
      ensures Valid() && fresh(Repr - old(Repr))
      ensures forall v :: Leaf(tables, root.table, v) == Leaf(old(tables), root.table, v)
      ensures nd == null ==> tables == old(tables)
      ensures nd != null ==> GrownTo(tb0, tables, root.table, va, nd.level)
      ensures Tagged(tb0, tables, flags, None, 0)
      ensures nd == null ==> pool == old(pool) == [] && Missing(tables, root.table, va) == Missing(old(tables), root.table, va) > 0
      ensures nd != null ==> && Known(nd) && nd.level == d.level + 1
                             && Walk(tables, root.table, va, nd.level) == Some(nd.table)
                             && |pool| == |old(pool)| - 1
                             && Missing(tables, root.table, va) == Missing(old(tables), root.table, va) - 1
    {
      ghost var tb, places, r := tables, at, root.table;
      var i := Index(va, d.level);
      EmptySlotMissing(tb, r, va, d.level);
      ghost var e;
      nd, e := NewChild(d, i, flags);
      if nd == null { return; }
      HangAdvances(tb, places, r, d.table, e, va, d.level);
      GrownByHang(tb0, tb, places, r, d.table, e, va, d.level);
      HangTags(tb0, tb, places, r, d.table, i, e, flags);
      forall v ensures Leaf(tables, r, v) == Leaf(tb, r, v) {
        HangKeepsLeaf(tb, places, r, d.table, i, e, v);
      }
    }

    /** The walk of map_pa_to_va_pg down to the last level, creating what is missing. It fails
        exactly when more tables are missing than pages are left. */
    method Descend(va: bv64, flags: bv64) returns (d: PtDesc?)
      requires Valid() && FlagsOk(flags)
      modifies this, Repr
      ensures Valid() && fresh(Repr - old(Repr))
      ensures forall v :: Leaf(tables, root.table, v) == Leaf(old(tables), root.table, v)
      ensures d == null <==> |old(pool)| < Missing(old(tables), root.table, va)
      ensures d == null ==> pool == []
      ensures if d == null then GrownTo(old(tables), tables, root.table, va, 1) || GrownTo(old(tables), tables, root.table, va, 2)
              else GrownTo(old(tables), tables, root.table, va, 3)
      ensures Tagged(old(tables), tables, flags, None, 0)
      ensures d != null ==> && Known(d) && Walk(tables, root.table, va, 3) == Some(d.table)
                            && |pool| == |old(pool)| - Missing(old(tables), root.table, va)
    {
      var c: PtDesc := root;
      assert DescOk(root.table);
      ghost var tb, need := tables, Missing(tables, root.table, va);
      GrownStart(tb, root.table, va);
      TagsNothing(tb, flags);
      while c.level < 3
        invariant Valid() && fresh(Repr - old(Repr)) && Known(c) && 1 <= c.level <= 3
        invariant Walk(tables, root.table, va, c.level) == Some(c.table)
        invariant forall v :: Leaf(tables, root.table, v) == Leaf(tb, root.table, v)
        invariant |old(pool)| - |pool| == need - Missing(tables, root.table, va)
        invariant GrownTo(tb, tables, root.table, va, c.level) && Tagged(tb, tables, flags, None, 0)
        decreases 3 - c.level
      {
        d := Step(c, va, flags, tb);
        if d == null { return; }
        c := d;
      }
      assert c.level == 3;
      WalkThrough(tables, root.table, va);
      return c;
    }

    /** One turn of the walk, above the last level. */
    method Step(c: PtDesc, va: bv64, flags: bv64, ghost tb0: Tables) returns (d: PtDesc?)
      requires GrownTo(tb0, tables, root.table, va, c.level) && Tagged(tb0, tables, flags, None, 0)
      requires Valid() && FlagsOk(flags) && Known(c) && 1 <= c.level < 3
      requires Walk(tables, root.table, va, c.level) == Some(c.table)
      modifies this, Repr
      ensures Valid() && fresh(Repr - old(Repr))
      ensures forall v :: Leaf(tables, root.table, v) == Leaf(old(tables), root.table, v)
      ensures |old(pool)| - |pool| == Missing(old(tables), root.table, va) - Missing(tables, root.table, va)
      ensures GrownTo(tb0, tables, root.table, va, if d == null then c.level else d.level)
      ensures Tagged(tb0, tables, flags, None, 0)
      ensures d == null ==> pool == [] && Missing(tables, root.table, va) > 0
      ensures d != null ==> Known(d) && d.level == c.level + 1 && Walk(tables, root.table, va, d.level) == Some(d.table)
    {
      assert DescOk(c.table) && AddressOk(desc[c.table]);
      WalkLevel(tables, at, root.table, va, c.level);
      var i := Index(va, c.level);
      var pte := tables[TableOf(c.pt)][i];
      if pte == 0 {
        d := HangTable(c, va, flags, tb0);
      } else {
        d := Follow(c, i);
        FollowWalk(tables, at, root.table, va, c.table, c.level);
        GrownByWalk(tb0, tables, root.table, va, c.level);
      }
    }

    /** The last-level slot of a reached table is written. */
    method SetSlot(d: PtDesc, va: bv64, e: bv64, ghost tb0: Tables, ghost flags: bv64)
      requires GrownTo(tb0, tables, root.table, va, 3) && Tagged(tb0, tables, flags, None, 0)
      requires Valid() && Known(d) && Walk(tables, root.table, va, 3) == Some(d.table)
      modifies this`tables
      ensures Valid() && GrownTo(tb0, tables, root.table, va, 3)
      ensures Walk(tables, root.table, va, 3) == Some(d.table) && Tagged(tb0, tables, flags, Some(d.table), Index(va, 3))
      ensures forall v :: Leaf(tables, root.table, v) == if Page(v) == Page(va) then e else Leaf(old(tables), root.table, v)
    {
      ghost var tb, r := tables, root.table;
      WalkLevel(tb, at, r, va, 3);
      assert DescOk(d.table) && AddressOk(desc[d.table]);
      SetKeepsAll(tb, at, r, d.table, Index(va, 3), e, pool);
      GrownBySet(tb0, tb, at, r, va, d.table, Index(va, 3), e);
      SetWalk(tb, at, r, d.table, Index(va, 3), e, va, 3);
      SetTags(tb0, tb, d.table, Index(va, 3), e, flags);
      tables := WithEntry(tables, TableOf(d.pt), Index(va, 3), e);
      forall v ensures Leaf(tables, r, v) == if Page(v) == Page(va) then e else Leaf(tb, r, v) {
        SetLeaf(tb, at, r, va, e, v);
      }
    }

    /** map_pa_to_va_pg: va's page gets the entry for pa and the flags, which translates it to pa's
        page, and no other page of the 39-bit space changes its translation, whatever tables had to be
        created. What is written for those has the flags too. The call fails exactly when they cannot
        all be created, and then no translation changes. */
    method MapPage(pa: bv64, va: bv64, flags: bv64) returns (ok: bool)
      requires Valid() && (flags == 0 || FlagsOk(flags))
      modifies this, Repr
      ensures Valid() && fresh(Repr - old(Repr))
      ensures ok <==> |old(pool)| >= Missing(old(tables), root.table, va)
      ensures |pool| == if ok then |old(pool)| - Missing(old(tables), root.table, va) else 0
      ensures if ok then GrownTo(old(tables), tables, root.table, va, 3)
              else GrownTo(old(tables), tables, root.table, va, 1) || GrownTo(old(tables), tables, root.table, va, 2)
      ensures forall v :: Leaf(tables, root.table, v) ==
                if ok && Page(v) == Page(va) then LeafEntry(pa, va, OrDefault(flags))
                else Leaf(old(tables), root.table, v)
      ensures ok && PageAligned(pa) && PageAligned(va) ==> MapsTo(tables, root.table, va, pa, flags)
      ensures Tagged(old(tables), tables, if flags == 0 then PTE_FLAGS_KERNEL_GENERIC else flags,
                     Walk(tables, root.table, va, 3), Index(va, 3))
    {
      DefaultFlagsOk();
      DefaultIsKernel(flags);
      ok := WriteLeaf(pa, va, OrDefault(flags));
      if ok && PageAligned(pa) && PageAligned(va) { MapsToIf(tables, root.table, va, pa, flags); }
    }

    /** What map_pa_to_va_pg does once it has its flags. */
    method WriteLeaf(pa: bv64, va: bv64, flags: bv64) returns (ok: bool)
      requires Valid() && FlagsOk(flags)
      modifies this, Repr
      ensures Valid() && fresh(Repr - old(Repr))
      ensures ok <==> |old(pool)| >= Missing(old(tables), root.table, va)
      ensures |pool| == if ok then |old(pool)| - Missing(old(tables), root.table, va) else 0
      ensures if ok then GrownTo(old(tables), tables, root.table, va, 3)
              else GrownTo(old(tables), tables, root.table, va, 1) || GrownTo(old(tables), tables, root.table, va, 2)
      ensures forall v :: Leaf(tables, root.table, v) ==
                if ok && Page(v) == Page(va) then LeafEntry(pa, va, flags) else Leaf(old(tables), root.table, v)
      ensures Tagged(old(tables), tables, flags, Walk(tables, root.table, va, 3), Index(va, 3))
    {
      var d := Descend(va, flags);
      if d == null {
        TagsMore(old(tables), tables, flags, Walk(tables, root.table, va, 3), Index(va, 3));
        return false;
      }
      SetSlot(d, va, LeafEntry(pa, va, flags), old(tables), flags);
      ok := true;
    }

    /** The walk of map_pa_to_va_pg that only looks for the slot; with too few pages it finds none. */
    method FindSlot(va: bv64) returns (d: PtDesc?, pte: bv64)
      requires Valid()
      modifies this, Repr
      ensures Valid() && fresh(Repr - old(Repr))
      ensures d == null <==> |old(pool)| < Missing(old(tables), root.table, va)
      ensures forall v :: Leaf(tables, root.table, v) == Leaf(old(tables), root.table, v)
      ensures d != null ==> && Known(d) && Walk(tables, root.table, va, 3) == Some(d.table)
                            && pte == Leaf(tables, root.table, va) && GrownTo(old(tables), tables, root.table, va, 3)
                            && Tagged(old(tables), tables, OrDefault(0), None, 0)
    {
      DefaultFlagsOk();
      d := Descend(va, OrDefault(0));
      pte := 0;
      if d != null { pte := ReadSlot(d, va); }
    }

    /** va_set_attr. Without ok the kernel has gone wrong: the slot it writes was not found, which
        happens exactly when more tables are missing than pages are left. */
    method SetAttr(va: bv64, attr: bv64) returns (ok: bool)
      requires Valid()
      modifies this, Repr
      ensures Valid() && fresh(Repr - old(Repr))
      ensures ok <==> |old(pool)| >= Missing(old(tables), root.table, va)
      ensures forall v :: Leaf(tables, root.table, v) ==
                if ok && Page(v) == Page(va) then Or(Leaf(old(tables), root.table, v), attr) else Leaf(old(tables), root.table, v)
      ensures AttrOnly(attr) ==> SamePhysical(tables, old(tables), root.table)
    {
      ghost var tb := tables;
      var d, pte := FindSlot(va);
      if d == null { return false; }
      OnePage(tb, root.table, va);
      SetSlot(d, va, Or(pte, attr), tb, OrDefault(0));
      SetKeepsPhysical(tb, tables, root.table, va, attr);
      ok := true;
    }

    /** va_clear_attr */
    method ClearAttr(va: bv64, attr: bv64) returns (ok: bool)
      requires Valid()
      modifies this, Repr
      ensures Valid() && fresh(Repr - old(Repr))
      ensures ok <==> |old(pool)| >= Missing(old(tables), root.table, va)
      ensures forall v :: Leaf(tables, root.table, v) ==
                if ok && Page(v) == Page(va) then Clear(Leaf(old(tables), root.table, v), attr) else Leaf(old(tables), root.table, v)
      ensures AttrOnly(attr) ==> SamePhysical(tables, old(tables), root.table)
    {
      ghost var tb := tables;
      var d, pte := FindSlot(va);
      if d == null { return false; }
      OnePage(tb, root.table, va);
      SetSlot(d, va, Clear(pte, attr), tb, OrDefault(0));
      ClearKeepsPhysical(tb, tables, root.table, va, attr);
      ok := true;
    }

    method ReadSlot(d: PtDesc, va: bv64) returns (pte: bv64)
      requires Valid() && Known(d) && Walk(tables, root.table, va, 3) == Some(d.table)
      ensures pte == Leaf(tables, root.table, va)
    {
      WalkLevel(tables, at, root.table, va, 3);
      assert DescOk(d.table) && AddressOk(desc[d.table]);
      pte := tables[TableOf(d.pt)][Index(va, 3)];
    }
  }

  /** Every non-empty upper slot matches exactly one child descriptor, of the next level, and the
      code's search by address finds the table the hardware goes to. */
  lemma SlotHasOneChild(m: Mapper, d: PtDesc, i: nat)
    requires m.Valid() && m.Known(d) && d.level < 3 && i < 512 && Entry(m.tables, d.table, i) != 0
    ensures var e := Entry(m.tables, d.table, i);
            exists c {:trigger c in d.kids} :: c in d.kids && c.level == d.level + 1 && c.table == HwNext(e)
              && VaToPa(c.pt) == ExtractAddr(e) && forall k :: k in d.kids && k.table == c.table ==> k == c
  {
    var e := Entry(m.tables, d.table, i);
    assert m.DescOk(d.table);
    assert Points(m.tables, m.at, d.table, i) && SlotReadable(m.tables, d.table, i);
    var q := HwNext(e);
    assert m.DescOk(q) && AddressOk(m.desc[q]);
    assert m.desc[q] in d.kids;
    forall k | k in d.kids && k.table == q ensures k == m.desc[q] { assert m.Known(k); }
  }

  /** Addresses of one page share their translation. */
  lemma OnePage(tb: Tables, root: Frame, va: bv64)
    ensures forall v :: Page(v) == Page(va) ==> Leaf(tb, root, v) == Leaf(tb, root, va)
  {
    forall v | Page(v) == Page(va) ensures Leaf(tb, root, v) == Leaf(tb, root, va) {
      SamePageWalk(tb, root, va, v);
    }
  }

  /** Every address has the output address it had. */
  ghost predicate SamePhysical(tb1: Tables, tb2: Tables, root: Frame) {
    forall v :: HwAddr(Leaf(tb1, root, v)) == HwAddr(Leaf(tb2, root, v))
  }

  lemma SetKeepsPhysical(tb: Tables, tb': Tables, root: Frame, va: bv64, attr: bv64)
    requires forall v :: Leaf(tb', root, v) == if Page(v) == Page(va) then Or(Leaf(tb, root, v), attr) else Leaf(tb, root, v)
    ensures AttrOnly(attr) ==> SamePhysical(tb', tb, root)
  {
    if AttrOnly(attr) {
      forall v ensures HwAddr(Leaf(tb', root, v)) == HwAddr(Leaf(tb, root, v)) {
        SetAttrKeepsAddress(Leaf(tb, root, v), attr);
      }
    }
  }

  lemma ClearKeepsPhysical(tb: Tables, tb': Tables, root: Frame, va: bv64, attr: bv64)
    requires forall v :: Leaf(tb', root, v) == if Page(v) == Page(va) then Clear(Leaf(tb, root, v), attr) else Leaf(tb, root, v)
    ensures AttrOnly(attr) ==> SamePhysical(tb', tb, root)
  {
    if AttrOnly(attr) {
      forall v ensures HwAddr(Leaf(tb', root, v)) == HwAddr(Leaf(tb, root, v)) {
        ClearAttrKeepsAddress(Leaf(tb, root, v), attr);
      }
    }
  }

  lemma EmptySlotMissing(tb: Tables, root: Frame, va: bv64, level: nat)
    requires 1 <= level < 3 && Walk(tb, root, va, level).Some?
    requires Entry(tb, Walk(tb, root, va, level).value, Index(va, level)) == 0
    ensures Missing(tb, root, va) > 0
  {
    assert !IsDescriptor(0);
    assert Walk(tb, root, va, level + 1) == None;
  }

  lemma WalkThrough(tb: Tables, root: Frame, va: bv64)
    requires Walk(tb, root, va, 3).Some?
    ensures Missing(tb, root, va) == 0
  {
  }

  lemma FollowWalk(tb: Tables, at: map<Frame, Place>, root: Frame, va: bv64, t: Frame, level: nat)
    requires 1 <= level < 3 && Tree(tb, at, root) && Walk(tb, root, va, level) == Some(t)
    requires Entry(tb, t, Index(va, level)) != 0
    ensures Walk(tb, root, va, level + 1) == Some(HwNext(Entry(tb, t, Index(va, level))))
  {
    WalkLevel(tb, at, root, va, level);
    assert Points(tb, at, t, Index(va, level));
  }

  twostate lemma StillLinked(d: PtDesc)
    requires old(d.Linked()) && d.child == old(d.child) && d.kids == old(d.kids)
    requires forall k :: k in d.kids ==> k.next == old(k.next)
    ensures d.Linked()
  {
    assert forall i :: 0 <= i < |d.kids| ==> d.kids[i] in d.kids;
  }

  /** Growing the child list of descriptor x.1 by the one for table x.2 leaves every other
      descriptor x.3 as it was. */
  twostate lemma OtherDescOk(x: (Mapper, PtDesc, Frame, Frame))
    requires var (m, d, q, g) := x;
             && old(m.Shape() && m.Known(d)) && g in old(m.desc) && g != d.table
             && q !in old(m.desc) && q in m.desc && m.desc == old(m.desc)[q := m.desc[q]]
             && old(m.Repr) <= m.Repr && q in m.at && m.at == old(m.at)[q := m.at[q]]
             && old(d.kids) <= d.kids
             && (forall e: PtDesc {:trigger e.kids} {:trigger e.child} :: e in old(m.desc).Values && e != d ==> e.child == old(e.child) && e.kids == old(e.kids))
             && (forall e: PtDesc {:trigger e.next} :: e in old(m.desc).Values && e !in old(d.kids) ==> e.next == old(e.next))
    ensures x.3 in x.0.desc && x.0.desc[x.3] in x.0.Repr && x.3 in x.0.at && x.0.DescOk(x.3)
  {
    var (m, d, q, g) := x;
    var e := m.desc[g];
    assert old(m.DescOk(g)) && old(m.DescOk(d.table));
    assert e in old(m.desc).Values;
    forall k | k in e.kids ensures k !in old(d.kids) && k.next == old(k.next) {
      assert k in old(m.desc).Values;
    }
    StillLinked(e);
  }

  /** The pages still to come are proper tables, all different, and none is in use. */
  ghost predicate PoolOk(pool: seq<bv64>, tb: Tables) {
    && (forall i {:trigger Usable(pool[i], tb)} :: 0 <= i < |pool| ==> Usable(pool[i], tb))
    && (forall i, j :: 0 <= i < j < |pool| ==> TableOf(pool[i]) != TableOf(pool[j]))
  }

  ghost predicate Usable(pt: bv64, tb: Tables) {
    TableAddr(pt) && TableOf(pt) !in tb
  }

  function TableOf(pt: bv64): Frame { Frame(VaToPa(pt)) }

  lemma PoolStaysOk(pool: seq<bv64>, tb: Tables, t: Frame, i: nat, e: bv64)
    requires PoolOk(pool, tb) && t in tb && i < |tb[t]|
    requires forall j :: 0 <= j < |pool| ==> TableOf(pool[j]) != HwNext(e)
    ensures PoolOk(pool, WithTable(tb, t, i, e))
  {
    forall j | 0 <= j < |pool| ensures Usable(pool[j], WithTable(tb, t, i, e)) {
      assert Usable(pool[j], tb);
    }
  }

  lemma PoolSetOk(pool: seq<bv64>, tb: Tables, t: Frame, i: nat, e: bv64)
    requires PoolOk(pool, tb) && t in tb && i < |tb[t]|
    ensures PoolOk(pool, WithEntry(tb, t, i, e))
  {
    forall j | 0 <= j < |pool| ensures Usable(pool[j], WithEntry(tb, t, i, e)) {
      assert Usable(pool[j], tb);
    }
  }

  /** What the raw tables have to satisfy survives both updates. */
  lemma HangKeepsAll(tb: Tables, at: map<Frame, Place>, root: Frame, t: Frame, i: nat, e: bv64, pool: seq<bv64>)
    requires CanHang(tb, at, root, t, i, e) && Readable(tb, at) && ExtractAddr(e) == HwAddr(e)
    requires PoolOk(pool, tb) && forall j :: 0 <= j < |pool| ==> TableOf(pool[j]) != HwNext(e)
    ensures var tb', at' := WithTable(tb, t, i, e), at[HwNext(e) := Place(at[t].level + 1, t, i)];
            Tree(tb', at', root) && Readable(tb', at') && PoolOk(pool, tb')
  {
    HangKeepsTree(tb, at, root, t, i, e);
    HangReadable(tb, at, root, t, i, e);
    PoolStaysOk(pool, tb, t, i, e);
  }

  lemma SetKeepsAll(tb: Tables, at: map<Frame, Place>, root: Frame, t: Frame, i: nat, e: bv64, pool: seq<bv64>)
    requires Tree(tb, at, root) && Readable(tb, at) && PoolOk(pool, tb) && t in tb && at[t].level == 3 && i < 512
    ensures var tb' := WithEntry(tb, t, i, e); Tree(tb', at, root) && Readable(tb', at) && PoolOk(pool, tb')
  {
    SetKeepsTree(tb, at, root, t, i, e);
    SetReadable(tb, at, root, t, i, e);
    PoolSetOk(pool, tb, t, i, e);
  }

  ghost predicate AddressOk(d: PtDesc) {
    d.table == TableOf(d.pt) && TableAddr(d.pt)
  }

  lemma EmptyLeaf(tb: Tables, root: Frame, va: bv64)
    requires root in tb && tb[root] == Zeroed()
    ensures Leaf(tb, root, va) == 0 && Missing(tb, root, va) == 2
  {
    assert !IsDescriptor(0);
    assert Walk(tb, root, va, 1) == Some(root);
    assert Walk(tb, root, va, 2) == None;
  }
}
