/** Ranges of pages: address order against page numbers, for the loops that map page after page. */
module PageRange {
  import opened Folding
  import opened PageTable

  function Pack(i1: nat, i2: nat, i3: nat): nat {
    i1 * 0x4_0000 + i2 * 0x200 + i3
  }

  lemma PackOrder(a1: nat, a2: nat, a3: nat, b1: nat, b2: nat, b3: nat)
    requires a1 < 512 && a2 < 512 && a3 < 512 && b1 < 512 && b2 < 512 && b3 < 512
    ensures Pack(a1, a2, a3) < Pack(b1, b2, b3) <==> a1 < b1 || (a1 == b1 && (a2 < b2 || (a2 == b2 && a3 < b3)))
    ensures Pack(a1, a2, a3) == Pack(b1, b2, b3) <==> a1 == b1 && a2 == b2 && a3 == b3
    ensures Pack(a1, a2, a3) < 0x800_0000
  {
  }

  /** The indices of va are i, j and k, folded. */
  ghost predicate Indexed(va: bv64, i: nat, j: nat, k: nat) {
    i < 512 && j < 512 && k < 512
    && forall z {:trigger Look(z)} :: Look(z) && z == Slots ==> i == Index(va, 1) && j == Index(va, 2) && k == Index(va, 3)
  }

  lemma Indices(va: bv64) returns (i: nat, j: nat, k: nat)
    ensures Indexed(va, i, j, k)
  {
    i, j, k := Index(va, 1), Index(va, 2), Index(va, 3);
  }

  lemma IndexedOnce(va: bv64, i: nat, j: nat, k: nat, l: nat, m: nat, n: nat)
    requires Indexed(va, i, j, k) && Indexed(va, l, m, n)
    ensures i == l && j == m && k == n
  {
    assert Look(Slots);
  }

  lemma SomeIndices(va: bv64)
    ensures exists i, j, k :: Indexed(va, i, j, k)
  {
    var i, j, k := Indices(va);
  }

  /** The number of va's page in its 39-bit half. */
  ghost function PageNo(va: bv64): (n: nat)
    ensures n < 0x800_0000
  {
    SomeIndices(va);
    var i, j, k :| Indexed(va, i, j, k);
    PackOrder(i, j, k, 0, 0, 0);
    Pack(i, j, k)
  }

  lemma PageNoAt(va: bv64, i: nat, j: nat, k: nat)
    requires Indexed(va, i, j, k)
    ensures PageNo(va) == Pack(i, j, k)
  {
    var l, m, n :| Indexed(va, l, m, n) && PageNo(va) == Pack(l, m, n);
    IndexedOnce(va, i, j, k, l, m, n);
  }

  lemma PageNoIs(va: bv64)
    ensures PageNo(va) == Pack(Index(va, 1), Index(va, 2), Index(va, 3))
  {
    var i, j, k := Indices(va);
    PageNoAt(va, i, j, k);
    assert Look(Slots);
  }

  lemma SamePageNo(a: bv64, b: bv64)
    ensures PageNo(a) == PageNo(b) <==> Page(a) == Page(b)
  {
    PageNoIs(a);
    PageNoIs(b);
    IndicesArePage(a, b);
    PackOrder(Index(a, 1), Index(a, 2), Index(a, 3), Index(b, 1), Index(b, 2), Index(b, 3));
  }

  function Bump(a: bv64): bv64 { a + 0x1000 }

  lemma BumpNoCarry(a: bv64)
    requires Field(a, 3) != 0x1FF
    ensures Field(Bump(a), 1) == Field(a, 1) && Field(Bump(a), 2) == Field(a, 2) && Field(Bump(a), 3) == Field(a, 3) + 1
  {
  }

  lemma BumpCarry(a: bv64)
    requires Field(a, 3) == 0x1FF && Field(a, 2) != 0x1FF
    ensures Field(Bump(a), 1) == Field(a, 1) && Field(Bump(a), 2) == Field(a, 2) + 1 && Field(Bump(a), 3) == 0
  {
  }

  lemma BumpCarryTwice(a: bv64)
    requires Field(a, 3) == 0x1FF && Field(a, 2) == 0x1FF && Field(a, 1) != 0x1FF
    ensures Field(Bump(a), 1) == Field(a, 1) + 1 && Field(Bump(a), 2) == 0 && Field(Bump(a), 3) == 0
  {
  }

  lemma BumpHalf(a: bv64)
    requires !(Field(a, 1) == 0x1FF && Field(a, 2) == 0x1FF && Field(a, 3) == 0x1FF)
    ensures Half(Bump(a)) == Half(a)
  {
  }

  lemma BumpAligned(a: bv64)
    requires PageAligned(a)
    ensures PageAligned(Bump(a))
  {
  }

  lemma NextOfBv9(f: bv9, g: bv9)
    requires f != 0x1FF && g == f + 1
    ensures g as nat == f as nat + 1
  {
  }

  lemma EndsOfBv9(f: bv9)
    ensures f as nat == 511 <==> f == 0x1FF
    ensures f as nat == 0 <==> f == 0
  {
  }

  /** What adding 0x1000 does to the indices of an address that is not in the last page. */
  lemma BumpIndices(a: bv64)
    requires !(Field(a, 1) == 0x1FF && Field(a, 2) == 0x1FF && Field(a, 3) == 0x1FF)
    ensures var b := Bump(a);
            if Field(a, 3) != 0x1FF then Index(b, 1) == Index(a, 1) && Index(b, 2) == Index(a, 2) && Index(b, 3) == Index(a, 3) + 1
            else if Field(a, 2) != 0x1FF then Index(b, 1) == Index(a, 1) && Index(b, 2) == Index(a, 2) + 1 && Index(b, 3) == 0
            else Index(b, 1) == Index(a, 1) + 1 && Index(b, 2) == 0 && Index(b, 3) == 0
  {
    var f1, f2, f3, b := Field(a, 1), Field(a, 2), Field(a, 3), Bump(a);
    if f3 != 0x1FF {
      BumpNoCarry(a);
      NextOfBv9(f3, Field(b, 3));
    } else if f2 != 0x1FF {
      BumpCarry(a);
      NextOfBv9(f2, Field(b, 2));
      EndsOfBv9(Field(b, 3));
    } else {
      BumpCarryTwice(a);
      NextOfBv9(f1, Field(b, 1));
      EndsOfBv9(Field(b, 2));
      EndsOfBv9(Field(b, 3));
    }
  }

  lemma LastIndices(a: bv64)
    ensures Field(a, 1) == 0x1FF <==> Index(a, 1) == 511
    ensures Field(a, 2) == 0x1FF <==> Index(a, 2) == 511
    ensures Field(a, 3) == 0x1FF <==> Index(a, 3) == 511
  {
    EndsOfBv9(Field(a, 1));
    EndsOfBv9(Field(a, 2));
    EndsOfBv9(Field(a, 3));
  }

  lemma PackNext(i: nat, j: nat, k: nat, i': nat, j': nat, k': nat)
    requires j < 512 && k < 512
    requires if k != 511 then i' == i && j' == j && k' == k + 1
             else if j != 511 then i' == i && j' == j + 1 && k' == 0
             else i' == i + 1 && j' == 0 && k' == 0
    ensures Pack(i', j', k') == Pack(i, j, k) + 1
  {
  }

  /** Adding 0x1000 moves to the next page of the same half. */
  lemma BumpIsNext(a: bv64)
    requires PageNo(a) < 0x7FF_FFFF
    ensures Half(Bump(a)) == Half(a) && PageNo(Bump(a)) == PageNo(a) + 1
  {
    PageNoIs(a);
    PageNoIs(Bump(a));
    LastIndices(a);
    BumpHalf(a);
    BumpIndices(a);
    PackNext(Index(a, 1), Index(a, 2), Index(a, 3), Index(Bump(a), 1), Index(Bump(a), 2), Index(Bump(a), 3));
  }

  lemma Below1(a: bv64, b: bv64)
    requires Half(a) == Half(b) && Field(a, 1) < Field(b, 1)
    ensures a < b
  {
  }

  lemma Below2(a: bv64, b: bv64)
    requires Half(a) == Half(b) && Field(a, 1) == Field(b, 1) && Field(a, 2) < Field(b, 2)
    ensures a < b
  {
  }

  lemma Below3(a: bv64, b: bv64)
    requires Half(a) == Half(b) && Field(a, 1) == Field(b, 1) && Field(a, 2) == Field(b, 2) && Field(a, 3) < Field(b, 3)
    ensures a < b
  {
  }

  lemma LessOfBv9(a: bv9, b: bv9)
    ensures a as nat < b as nat <==> a < b
    ensures a as nat == b as nat <==> a == b
  {
  }

  lemma BelowIndex1(a: bv64, b: bv64)
    requires Half(a) == Half(b) && Index(a, 1) < Index(b, 1)
    ensures a < b
  {
    LessOfBv9(Field(a, 1), Field(b, 1));
    Below1(a, b);
  }

  lemma BelowIndex2(a: bv64, b: bv64)
    requires Half(a) == Half(b) && Index(a, 1) == Index(b, 1) && Index(a, 2) < Index(b, 2)
    ensures a < b
  {
    LessOfBv9(Field(a, 1), Field(b, 1));
    LessOfBv9(Field(a, 2), Field(b, 2));
    Below2(a, b);
  }

  lemma BelowIndex3(a: bv64, b: bv64)
    requires Half(a) == Half(b) && Index(a, 1) == Index(b, 1) && Index(a, 2) == Index(b, 2) && Index(a, 3) < Index(b, 3)
    ensures a < b
  {
    LessOfBv9(Field(a, 1), Field(b, 1));
    LessOfBv9(Field(a, 2), Field(b, 2));
    LessOfBv9(Field(a, 3), Field(b, 3));
    Below3(a, b);
  }

  lemma BelowByPage(a: bv64, b: bv64)
    requires Half(a) == Half(b) && PageNo(a) < PageNo(b)
    ensures a < b
  {
    PageNoIs(a);
    PageNoIs(b);
    PackOrder(Index(a, 1), Index(a, 2), Index(a, 3), Index(b, 1), Index(b, 2), Index(b, 3));
    if Index(a, 1) < Index(b, 1) { BelowIndex1(a, b); }
    else if Index(a, 2) < Index(b, 2) { BelowIndex2(a, b); }
    else { BelowIndex3(a, b); }
  }

  lemma SamePageBelow(a: bv64, b: bv64)
    requires Half(a) == Half(b) && PageAligned(a) && Page(a) == Page(b)
    ensures a < b <==> !PageAligned(b)
  {
  }

  /** The number of the first page at or above end. */
  ghost function EndNo(end: bv64): nat {
    PageNo(end) + if PageAligned(end) then 0 else 1
  }

  lemma NotBothBelow(a: bv64, b: bv64)
    requires a < b
    ensures !(b < a)
  {
  }

  lemma NotBelowByPage(a: bv64, b: bv64)
    requires Half(a) == Half(b) && PageNo(b) < PageNo(a)
    ensures !(a < b)
  {
    BelowByPage(b, a);
    NotBothBelow(b, a);
  }

  lemma SameNumberBelow(a: bv64, b: bv64)
    requires Half(a) == Half(b) && PageAligned(a) && PageNo(a) == PageNo(b)
    ensures a < b <==> !PageAligned(b)
  {
    SamePageNo(a, b);
    SamePageBelow(a, b);
  }

  predicate Below(a: bv64, b: bv64) { a < b }

  lemma BelowEndIf(a: bv64, end: bv64)
    requires Half(a) == Half(end) && PageAligned(a) && PageNo(a) < EndNo(end)
    ensures Below(a, end)
  {
    if PageNo(a) < PageNo(end) { BelowByPage(a, end); } else { SameNumberBelow(a, end); }
  }

  lemma BelowEndOnlyIf(a: bv64, end: bv64)
    requires Half(a) == Half(end) && PageAligned(a) && PageNo(a) >= EndNo(end)
    ensures !Below(a, end)
  {
    if PageNo(end) < PageNo(a) { NotBelowByPage(a, end); } else { SameNumberBelow(a, end); }
  }

  /** A page start lies below end exactly when its number does. */
  lemma BelowEnd(a: bv64, end: bv64)
    requires Half(a) == Half(end) && PageAligned(a)
    ensures Below(a, end) <==> PageNo(a) < EndNo(end)
    ensures a < end <==> PageNo(a) < EndNo(end)
  {
    var n, m := PageNo(a), EndNo(end);
    if n < m { BelowEndIf(a, end); } else { BelowEndOnlyIf(a, end); }
  }

  lemma KernelStartIsFirst()
    ensures PageNo(KERNEL_START) == 0
  {
    KernelStartIndices();
    PageNoAt(KERNEL_START, 0, 0, 0);
  }

  lemma KernelStartIndices()
    ensures Indexed(KERNEL_START, 0, 0, 0)
  {
    EndsOfBv9(Field(KERNEL_START, 1));
    EndsOfBv9(Field(KERNEL_START, 2));
    EndsOfBv9(Field(KERNEL_START, 3));
  }

  lemma BumpKeepsHalf(a: bv64)
    requires PageAligned(a) && InHalf(a) && PageNo(a) < 0x7FF_FFFF
    ensures PageAligned(Bump(a)) && InHalf(Bump(a)) && Half(Bump(a)) == Half(a) && PageNo(Bump(a)) == PageNo(a) + 1
  {
    BumpAligned(a);
    BumpIsNext(a);
    KernelStartIsFirst();
  }
}
