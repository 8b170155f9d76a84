/** What slub.c does with objects, as moves between lists: slabs, their slots, and the law that every
    slot is in exactly one list. */
module Slub {
  import opened Dyadic
  import BuddyLists

  const MIN_ORDER: nat := 6
  const MAX_ORDER: nat := 10

  predicate Served(k: nat) { MIN_ORDER <= k <= MAX_ORDER }

  /** An object descriptor: where its memory is, how large, and the core whose slab it is from. */
  datatype Obj = Obj(addr: nat, order: nat, home: nat) {
    function End(): nat { addr + Pow2(order) }
    function Page(): nat { addr - addr % PAGE_SIZE }
  }

  /** A page carved into objects of one order for one core. */
  datatype Slab = Slab(order: nat, home: nat)

  /** The slabs, by page address. */
  type Slabs = map<nat, Slab>

  /** Where an object can be: its home cache, another core's cache for objects of its page, or the
      list of the task that has allocated it. */
  datatype Place = Home(core: nat, order: nat) | Stray(core: nat, order: nat, page: nat) | Owned(task: nat)

  type Lists = map<Place, seq<Obj>>

  function At(l: Lists, p: Place): seq<Obj> {
    if p in l then l[p] else []
  }

  // ---------------------------------------------------------------- slots

  lemma ObjSizes()
    ensures Pow2(6) == 64 && Pow2(7) == 128 && Pow2(8) == 256 && Pow2(9) == 512 && Pow2(10) == 1024
    ensures Pow2(11) == 2048 && Pow2(12) == 4096
  {
    assert Pow2(4) == 16;
    assert Pow2(6) == 4 * Pow2(4);
  }

  function ObjOrder(size: nat): (k: nat)
    ensures MIN_ORDER <= k && size <= Pow2(k) && forall j :: MIN_ORDER <= j < k ==> Pow2(j) < size
  {
    OrderFrom(size, MIN_ORDER)
  }

  /** A cache exists for the order exactly up to 1024 bytes. */
  lemma ServedSizes(size: nat)
    ensures Served(ObjOrder(size)) <==> size <= 1024
  {
    ObjSizes();
  }

  predicate SlabsOk(slabs: Slabs) {
    forall p :: p in slabs ==> 0 < p && p % PAGE_SIZE == 0 && Served(slabs[p].order)
  }

  /** o describes one of the objects the slabs consist of. */
  predicate Slot(slabs: Slabs, o: Obj) {
    && o.Page() in slabs && slabs[o.Page()] == Slab(o.order, o.home)
    && o.addr % Pow2(o.order) == 0
  }

  lemma SlotInPage(slabs: Slabs, o: Obj)
    requires SlabsOk(slabs) && Slot(slabs, o)
    ensures 0 < o.Page() <= o.addr < o.End() <= o.Page() + PAGE_SIZE
  {
    var c, s := Count(Pow2(o.order)), Pow2(o.order);
    CarveSize(o.order);
    var i := SlotIndex(o.Page(), c, s, o.addr);
    MulLe(i + 1, c, s);
    assert (i + 1) * s == i * s + s;
  }

  lemma SlotsApart(slabs: Slabs, o: Obj, q: Obj)
    requires SlabsOk(slabs) && Slot(slabs, o) && Slot(slabs, q) && o != q
    ensures o.End() <= q.addr || q.End() <= o.addr
  {
    SlotInPage(slabs, o);
    SlotInPage(slabs, q);
    if o.Page() == q.Page() {
      if o.addr < q.addr {
        MultiplesApart(o.addr, q.addr, Pow2(o.order));
      } else {
        MultiplesApart(q.addr, o.addr, Pow2(o.order));
      }
    } else {
      MultiplesApart(if o.Page() < q.Page() then o.Page() else q.Page(),
                     if o.Page() < q.Page() then q.Page() else o.Page(), PAGE_SIZE);
    }
  }

  lemma MultiplesApart(a: nat, b: nat, s: nat)
    requires s > 0 && a % s == 0 && b % s == 0 && a < b
    ensures a + s <= b
  {
    MulStrict(a / s, b / s, s);
    MulLe(a / s + 1, b / s, s);
  }

  function Count(size: nat): nat
    requires size > 0
  {
    PAGE_SIZE / size
  }

  function Offset(i: nat, size: nat): nat { i * size }

  /** The objects of a fresh slab, in list order. */
  function Carve(page: nat, k: nat, core: nat): (r: seq<Obj>)
    ensures |r| == Count(Pow2(k))
  {
    seq(Count(Pow2(k)), i requires 0 <= i => Obj(page + Offset(i, Pow2(k)), k, core))
  }

  lemma CarveSize(k: nat)
    requires Served(k)
    ensures Count(Pow2(k)) * Pow2(k) == PAGE_SIZE && Count(Pow2(k)) >= 4
  {
    ObjSizes();
  }

  /** The address of object i of a slab, and the index of the object at address a, when c objects
      of s bytes fill a page. */
  lemma SlotArithmetic(page: nat, c: nat, s: nat, i: nat)
    requires page % PAGE_SIZE == 0 && s > 0 && c * s == PAGE_SIZE && i < c
    ensures (page + i * s) % PAGE_SIZE == i * s && (page + i * s) % s == 0
  {
    var t := page / PAGE_SIZE;
    MulLe(i + 1, c, s);
    Regroup(t, c, s, i);
    DivUnique(page + i * s, PAGE_SIZE, t, i * s);
    DivUnique(page + i * s, s, t * c + i, 0);
  }

  lemma Regroup(t: nat, c: nat, s: nat, i: int)
    ensures (t * c + i) * s == t * (c * s) + i * s && (i + 1) * s == i * s + s
  {
    assert (t * c) * s == t * (c * s);
  }

  lemma SlotIndex(page: nat, c: nat, s: nat, a: nat) returns (i: nat)
    requires s > 0 && c * s == PAGE_SIZE && a - a % PAGE_SIZE == page && a % s == 0
    ensures i < c && a == page + i * s
  {
    var t, u := page / PAGE_SIZE, a / s;
    Regroup(t, c, s, u - t * c);
    var d := u - t * c;
    assert u * s == a && t * PAGE_SIZE == page;
    assert d * s == a - page;
    assert d < 0 ==> d * s < 0;
    i := d;
    MulStrict(i, c, s);
  }

  /** A fresh slab partitions its page: the objects follow each other without a gap from its first
      byte to its last. */
  lemma CarvePartitions(page: nat, k: nat, core: nat)
    requires Served(k)
    ensures var r := Carve(page, k, core);
            && |r| >= 4 && r[0].addr == page && r[|r| - 1].End() == page + PAGE_SIZE
            && forall i :: 0 <= i < |r| - 1 ==> r[i].End() == r[i + 1].addr
  {
    CarveSize(k);
    var r := Carve(page, k, core);
    forall i | 0 <= i < |r| - 1 ensures r[i].End() == r[i + 1].addr {
      assert (i + 1) * Pow2(k) == i * Pow2(k) + Pow2(k);
    }
    assert (|r| - 1) * Pow2(k) + Pow2(k) == PAGE_SIZE;
  }

  /** o is a slot of this one slab. */
  predicate Among(o: Obj, page: nat, k: nat, core: nat) {
    o.Page() == page && o.addr % Pow2(k) == 0 && o.order == k && o.home == core
  }

  /** The objects of a fresh slab are exactly the slots of its page, each once. */
  lemma CarveSlots(page: nat, k: nat, core: nat)
    requires Served(k) && page % PAGE_SIZE == 0
    ensures var r := Carve(page, k, core);
            forall o :: o in r <==> Among(o, page, k, core)
    ensures Distinct(Carve(page, k, core))
  {
    CarveSize(k);
    var r, c, z := Carve(page, k, core), Count(Pow2(k)), Pow2(k);
    forall i | 0 <= i < c ensures Among(r[i], page, k, core) { SlotArithmetic(page, c, z, i); }
    forall o: Obj | Among(o, page, k, core) ensures o in r {
      var i := SlotIndex(page, c, z, o.addr);
      assert r[i] == o;
    }
    forall i, j | 0 <= i < j < c ensures r[i] != r[j] { MulStrictly(i, j, z); }
  }

  lemma MulStrictly(i: nat, j: nat, s: nat)
    requires i < j && s > 0
    ensures i * s < j * s
  {
    assert (j - i) * s > 0;
  }

  /** The descriptors of an object and of a cache, in bytes, with the padding of a 64-bit processor. */
  const OBJ_BYTES: nat := 8 + 4 + 4 + 8 + 8
  const CACHE_BYTES: nat := 4 + 4 + 8 + 8 + 8 + 1 + 7 + 8

  /** What kmem_init_caches puts into the metadata page for the orders k to 10. */
  function MetadataBytes(k: nat): nat
    decreases MAX_ORDER + 1 - k
  {
    if k > MAX_ORDER then 0 else CACHE_BYTES + Count(Pow2(k)) * OBJ_BYTES + MetadataBytes(k + 1)
  }

  /** It always runs past the end of that page: the code has no test. */
  lemma MetadataOverruns()
    ensures MetadataBytes(MIN_ORDER) == 4208 > PAGE_SIZE
  {
    ObjSizes();
    assert MetadataBytes(10) == 176;
    assert MetadataBytes(8) == 48 + 512 + (48 + 256 + 176);
  }

  // ---------------------------------------------------------------- lists

  predicate Distinct(s: seq<Obj>) {
    forall i, j :: 0 <= i < j < |s| ==> s[i] != s[j]
  }

  lemma CutMembers(s: seq<Obj>, i: nat)
    requires i < |s| && Distinct(s)
    ensures Distinct(BuddyLists.Cut(s, i))
    ensures forall o :: o in BuddyLists.Cut(s, i) <==> o in s && o != s[i]
  {
    var r := BuddyLists.Cut(s, i);
    forall o | o in s && o != s[i] ensures o in r {
      var j :| 0 <= j < |s| && s[j] == o;
      assert r[if j < i then j else j - 1] == o;
    }
    forall o | o in r ensures o in s && o != s[i] {
      var j :| 0 <= j < |r| && r[j] == o;
      assert s[if j < i then j else j + 1] == o;
    }
  }

  /** The index of the object at address a, or -1. */
  function Find(s: seq<Obj>, a: nat): (i: int)
    ensures -1 <= i < |s|
    ensures i >= 0 ==> s[i].addr == a
    ensures forall j :: 0 <= j < (if i < 0 then |s| else i) ==> s[j].addr != a
  {
    if s == [] then -1
    else if s[0].addr == a then 0
    else var i := Find(s[1..], a); if i < 0 then -1 else i + 1
  }

  /** Object i of list p goes to the end of list q. */
  function Move(l: Lists, p: Place, i: nat, q: Place): Lists
    requires p in l && i < |l[p]| && p != q
  {
    l[p := BuddyLists.Cut(l[p], i)][q := At(l, q) + [l[p][i]]]
  }

  /** Caches hold only objects of their order, and know which are their own core's. */
  predicate Fits(p: Place, o: Obj) {
    match p
    case Home(c, k) => o.home == c && o.order == k
    case Stray(c, k, page) => o.home != c && o.order == k && o.Page() == page
    case Owned(_) => true
  }

  /** The objects listed are slots, in places where they may be. */
  ghost predicate Sound(l: Lists, slabs: Slabs) {
    forall p, o :: p in l && o in l[p] ==> Slot(slabs, o) && Fits(p, o)
  }

  /** Every slot is in exactly one list, exactly once. */
  ghost predicate Conserved(l: Lists, slabs: Slabs) {
    && (forall p :: p in l ==> Distinct(l[p]))
    && (forall p, q, o :: p in l && q in l && o in l[p] && o in l[q] ==> p == q)
    && (forall o :: Slot(slabs, o) ==> exists p :: p in l && o in l[p])
  }

  ghost predicate Placed(l: Lists, slabs: Slabs) {
    SlabsOk(slabs) && Sound(l, slabs) && Conserved(l, slabs)
  }

  /** Where everything is after a move: the moved object in its new list and nowhere else, every
      other object where it was. */
  lemma MoveMembers(l: Lists, p: Place, i: nat, q: Place)
    requires p in l && i < |l[p]| && p != q && Distinct(l[p])
    requires forall r, o :: r in l && o in l[p] && o in l[r] ==> r == p
    ensures var m, x := Move(l, p, i, q), l[p][i];
            && m.Keys == l.Keys + {q}
            && (forall r, o :: r in m && o in m[r] <==> if o == x then r == q else r in l && o in l[r])
  {
    var m, x := Move(l, p, i, q), l[p][i];
    CutMembers(l[p], i);
    assert x in l[p];
    forall r, o | r in m && o in m[r] ensures if o == x then r == q else r in l && o in l[r] {
      if r == q {
        assert o == x || o in At(l, q);
      } else if r == p {
        assert o in BuddyLists.Cut(l[p], i);
      } else {
        assert o in l[r];
      }
    }
    forall r, o | (if o == x then r == q else r in l && o in l[r]) ensures r in m && o in m[r] {
      if o == x { assert m[q][|m[q]| - 1] == x; }
    }
  }

  lemma MoveKeepsPlaced(l: Lists, slabs: Slabs, p: Place, i: nat, q: Place)
    requires Placed(l, slabs) && p in l && i < |l[p]| && p != q && Fits(q, l[p][i])
    ensures Placed(Move(l, p, i, q), slabs)
  {
    var m, x := Move(l, p, i, q), l[p][i];
    MoveMembers(l, p, i, q);
    CutMembers(l[p], i);
    assert q in l ==> x !in l[q];
    forall o | Slot(slabs, o) ensures exists r :: r in m && o in m[r] {
      var r :| r in l && o in l[r];
      assert if o == x then q in m && o in m[q] else r in m && o in m[r];
    }
  }

  /** A new slab's objects enter a cache that did not exist. */
  lemma AddSlabKeepsPlaced(l: Lists, slabs: Slabs, page: nat, k: nat, core: nat)
    requires Placed(l, slabs) && Served(k) && Home(core, k) !in l
    requires 0 < page && page % PAGE_SIZE == 0 && page !in slabs
    ensures Placed(l[Home(core, k) := Carve(page, k, core)], slabs[page := Slab(k, core)])
  {
    var h := Home(core, k);
    var m, t := l[h := Carve(page, k, core)], slabs[page := Slab(k, core)];
    CarveSlots(page, k, core);
    assert forall p :: p in m ==> p == h || (p in l && m[p] == l[p]);
    forall p, o | p in l && o in l[p] ensures o.Page() != page && Slot(t, o) { assert Slot(slabs, o); }
    forall o: Obj | o in m[h] ensures o.Page() == page && Slot(t, o) && Fits(h, o) {}
    forall o | Slot(t, o) ensures exists r :: r in m && o in m[r] {
      if o.Page() == page {
        assert h in m && o in m[h];
      } else {
        assert Slot(slabs, o);
        var r :| r in l && o in l[r];
        assert r in m && o in m[r];
      }
    }
  }

  // ---------------------------------------------------------------- slub_alloc as written

  /** Where the lists are once the last object of cache h has been taken to list q: it stays in the
      cache as well when it was alone there. */
  function TakeAsWritten(l: Lists, h: Place, q: Place): Lists
    requires h in l && l[h] != [] && h != q
  {
    if |l[h]| == 1 then l[q := At(l, q) + l[h]] else Move(l, h, |l[h]| - 1, q)
  }

  /** It is the move it should be, and keeps every object in exactly one list, exactly when the object
      was not alone. */
  lemma TakeMeetsContract(l: Lists, slabs: Slabs, h: Place, q: Place)
    requires Placed(l, slabs) && h in l && l[h] != [] && q.Owned? && !h.Owned?
    ensures TakeAsWritten(l, h, q) == Move(l, h, |l[h]| - 1, q) <==> |l[h]| != 1
    ensures Conserved(TakeAsWritten(l, h, q), slabs) <==> |l[h]| != 1
  {
    var m, r := TakeAsWritten(l, h, q), Move(l, h, |l[h]| - 1, q);
    if |l[h]| == 1 {
      var o := l[h][0];
      assert |m[h]| == 1 && |r[h]| == 0;
      assert m[q][|m[q]| - 1] == o && m[h][0] == o;
      assert o in m[q] && o in m[h];
    } else {
      assert l[h][|l[h]| - 1] in l[h];
      MoveKeepsPlaced(l, slabs, h, |l[h]| - 1, q);
    }
  }

  // ---------------------------------------------------------------- slub_free as written

  /** The index of the object that kmem_extract_obj takes for object i of n: the one it finds, but for
      the first of several the second. */
  function Taken(n: nat, i: nat): (j: nat)
    requires i < n
    ensures j < n
  {
    if i == 0 && n > 1 then 1 else i
  }

  /** What it leaves of a list: a sole object is not unlinked. */
  function RestAsWritten<T>(s: seq<T>, i: nat): seq<T>
    requires i < |s|
  {
    if |s| == 1 then s else BuddyLists.Cut(s, Taken(|s|, i))
  }

  /** Where the lists are once a task has freed object i of its list p. The object taken enters its
      own core's cache when that core frees it. Another core makes a cache for it that nothing points
      to, so it enters no list that is ever looked at. */
  function FreeAsWritten(l: Lists, p: Place, i: nat, core: nat): Lists
    requires p in l && i < |l[p]| && p.Owned?
  {
    var o := l[p][Taken(|l[p]|, i)];
    var m := l[p := RestAsWritten(l[p], i)];
    var h := Home(core, o.order);
    if o.home == core then m[h := At(m, h) + [o]] else m
  }

  /** It is the move it should be, to whichever cache the object belongs in, exactly when the object
      is not the first of the list and is freed on its own core. */
  lemma FreeMeetsContract(l: Lists, slabs: Slabs, p: Place, i: nat, core: nat, q: Place)
    requires Placed(l, slabs) && p in l && i < |l[p]| && p.Owned?
    requires !q.Owned? && (l[p][i].home == core ==> q == Home(core, l[p][i].order))
    ensures FreeAsWritten(l, p, i, core) == Move(l, p, i, q) <==> i != 0 && l[p][i].home == core
  {
    var s, m, r := l[p], FreeAsWritten(l, p, i, core), Move(l, p, i, q);
    if i == 0 {
      CutMembers(s, 0);
      assert m[p][0] == s[0] && s[0] !in r[p];
    } else if s[i].home != core {
      assert |At(m, q)| == |At(l, q)| && |r[q]| == |At(l, q)| + 1;
    }
  }

  /** Every object stays in exactly one list exactly when the object taken is unlinked and on its own
      core, or neither. */
  lemma FreeConserves(l: Lists, slabs: Slabs, p: Place, i: nat, core: nat)
    requires Placed(l, slabs) && p in l && i < |l[p]| && p.Owned?
    ensures Conserved(FreeAsWritten(l, p, i, core), slabs) <==> (l[p][Taken(|l[p]|, i)].home == core <==> |l[p]| > 1)
  {
    var s, m, j := l[p], FreeAsWritten(l, p, i, core), Taken(|l[p]|, i);
    var o := s[j];
    var h := Home(core, o.order);
    if |s| == 1 {
      if o.home == core {
        assert o in m[p] && m[h][|m[h]| - 1] == o;
      } else {
        assert m == l;
      }
    } else if o.home == core {
      assert m == Move(l, p, j, h);
      MoveKeepsPlaced(l, slabs, p, j, h);
    } else {
      FreeLoses(l, slabs, p, i, core);
    }
  }

  /** An object taken out of several on another core than its own is in no list any more. */
  lemma FreeLoses(l: Lists, slabs: Slabs, p: Place, i: nat, core: nat)
    requires Placed(l, slabs) && p in l && i < |l[p]| && p.Owned? && |l[p]| > 1
    requires l[p][Taken(|l[p]|, i)].home != core
    ensures var o, m := l[p][Taken(|l[p]|, i)], FreeAsWritten(l, p, i, core);
            Slot(slabs, o) && forall q :: q in m ==> o !in m[q]
  {
    var j, m := Taken(|l[p]|, i), FreeAsWritten(l, p, i, core);
    assert l[p][j] in l[p];
    CutMembers(l[p], j);
  }

  /** What it does in every case, by the object o that is to be freed and the object t that is taken. */
  lemma FreeCases(l: Lists, slabs: Slabs, p: Place, i: nat, core: nat)
    requires Placed(l, slabs) && p in l && i < |l[p]| && p.Owned?
    ensures var s, m := l[p], FreeAsWritten(l, p, i, core);
            var o, t := s[i], s[Taken(|s|, i)];
            && (Conserved(m, slabs) <==> (t.home == core <==> |s| > 1))
            && (i == 0 ==> o in m[p])
            && (|s| == 1 && o.home == core ==> o in m[Home(core, o.order)])
            && (|s| == 1 && o.home != core ==> m == l)
            && (|s| > 1 && t.home == core ==> m == Move(l, p, Taken(|s|, i), Home(core, t.order)))
            && (|s| > 1 && t.home != core ==> Slot(slabs, t) && forall q :: q in m ==> t !in m[q])
  {
    var s, m := l[p], FreeAsWritten(l, p, i, core);
    FreeConserves(l, slabs, p, i, core);
    if |s| > 1 && s[Taken(|s|, i)].home != core { FreeLoses(l, slabs, p, i, core); }
    var h := Home(core, s[i].order);
    if i == 0 { assert m[p][0] == s[0]; }
    if |s| == 1 && s[i].home == core { assert m[h][|m[h]| - 1] == s[i]; }
  }
}
