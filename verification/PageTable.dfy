/** Page-table words and table contents of pt.c: the Armv8-A stage 1 format with a 4 KB granule
    (DDI 0487, "Translation table descriptor formats"), three levels, 39-bit addresses. */
module PageTable {
  import opened Folding

  const KERNEL_START: bv64 := 0xFFFF_FF80_0000_0000
  const PTE_FLAGS_KERNEL_GENERIC: bv64 := 0x0040_0000_0000_0707
  const PTE_FLAGS_USER_GENERIC: bv64 := 0x0020_0000_0000_0707
  const PTE_FLAGS_IO: bv64 := 0x0040_0000_0000_060B
  const PTE_FLAGS_NC: bv64 := 0x0040_0000_0000_0603

  /** The bits extract_addr_from_pte drops: where this kernel keeps attributes. */
  const ATTR_MASK: bv64 := 0x00F0_0000_0000_0FFF
  /** Bits 47:12 of a table or page descriptor: the address the hardware follows. */
  const ADDR_MASK: bv64 := 0x0000_FFFF_FFFF_F000
  /** Bits 38:12 of a virtual address: the page it lies in. */
  const PAGE_MASK: bv64 := 0x0000_007F_FFFF_F000

  // ---------------------------------------------------------------- words

  function Or(a: bv64, b: bv64): bv64 { a | b }

  function Clear(a: bv64, b: bv64): bv64 { a & !b }

  /** Addresses above KERNEL_START lose it; KERNEL_START itself does not. */
  function Physical(paddr: bv64): bv64 {
    if paddr > KERNEL_START then paddr - KERNEL_START else paddr
  }

  function PtEntry(paddr: bv64, flags: bv64): bv64 { Or(Physical(paddr), flags) }

  function AddrPart(pte: bv64): bv64 { Clear(pte, ATTR_MASK) }

  function Widen(addr: bv64): bv64 {
    if addr < 0xFFFF_FFFF then addr else KERNEL_START + (addr & 0xFFFF_FFFF)
  }

  function ExtractAddr(pte: bv64): bv64 { Widen(AddrPart(pte)) }

  function VaToPa(a: bv64): bv64 { Clear(a, KERNEL_START) }

  function PaToVa(a: bv64): bv64 { Or(KERNEL_START, a) }

  /** The next-level table address, or the output address, as the hardware reads it. */
  function HwAddr(pte: bv64): bv64 { pte & ADDR_MASK }

  /** Bits 1:0 are 11: a table descriptor above the last level, a page descriptor in it. */
  predicate IsDescriptor(pte: bv64) { pte & 3 == 3 }

  predicate PageAligned(a: bv64) { a & 0xFFF == 0 }

  predicate LowHalf(a: bv64) { a & KERNEL_START == 0 }

  predicate Below4G(a: bv64) { a < 0x1_0000_0000 }

  predicate AttrOnly(flags: bv64) { Clear(flags, ATTR_MASK) == 0 }

  /** Attributes that make a table or page descriptor and stay clear of the address. */
  predicate FlagsOk(flags: bv64) { IsDescriptor(flags) && AttrOnly(flags) }

  /** A page-aligned table below 4 GB, given by its physical or its kernel address. */
  predicate TableAddr(pt: bv64) {
    PageAligned(Physical(pt)) && Below4G(Physical(pt)) && Physical(pt) != 0 && VaToPa(pt) == Physical(pt)
  }

  lemma DefaultFlagsOk()
    ensures FlagsOk(PTE_FLAGS_KERNEL_GENERIC) && FlagsOk(PTE_FLAGS_USER_GENERIC)
    ensures FlagsOk(PTE_FLAGS_IO) && FlagsOk(PTE_FLAGS_NC)
  {
  }

  /** Subtracting KERNEL_START and masking it agree on every address of the upper half except
      KERNEL_START itself, which pt_entry leaves as it is. */
  lemma SubtractIsMask(a: bv64)
    requires a >= KERNEL_START
    ensures Physical(a) == VaToPa(a) <==> a != KERNEL_START
  {
  }

  lemma OrIsPlus(pa: bv64)
    requires LowHalf(pa)
    ensures PaToVa(pa) == KERNEL_START + pa
  {
  }

  lemma PhysicalOfKernel(pa: bv64)
    requires LowHalf(pa) && pa != 0
    ensures Physical(KERNEL_START + pa) == pa
  {
  }

  lemma KernelSpelling(pa: bv64)
    requires LowHalf(pa) && pa != 0
    ensures Physical(PaToVa(pa)) == pa
  {
    OrIsPlus(pa);
    PhysicalOfKernel(pa);
  }

  lemma MaskedSpelling(pa: bv64)
    requires LowHalf(pa)
    ensures VaToPa(PaToVa(pa)) == pa && VaToPa(pa) == pa
  {
  }

  /** Both spellings of a table address count: the physical one and the kernel one. */
  lemma TableSpellings(pa: bv64)
    requires PageAligned(pa) && Below4G(pa) && pa != 0
    ensures TableAddr(pa) && TableAddr(PaToVa(pa)) && Physical(PaToVa(pa)) == pa
  {
    Below4GIsLow(pa);
    LowIsPhysical(pa);
    KernelSpelling(pa);
    MaskedSpelling(pa);
  }

  lemma AddressPart(pa: bv64, flags: bv64)
    requires PageAligned(pa) && LowHalf(pa) && AttrOnly(flags)
    ensures AddrPart(Or(pa, flags)) == pa && HwAddr(Or(pa, flags)) == pa
  {
  }

  lemma WidenKeeps(pa: bv64)
    requires PageAligned(pa) && LowHalf(pa)
    ensures Widen(pa) == pa <==> Below4G(pa)
  {
  }

  lemma Below4GIsLow(pa: bv64)
    requires Below4G(pa)
    ensures LowHalf(pa)
  {
  }

  lemma DescriptorPart(pa: bv64, flags: bv64)
    requires PageAligned(pa) && IsDescriptor(flags)
    ensures IsDescriptor(Or(pa, flags)) && Or(pa, flags) != 0
  {
  }

  /** extract_addr_from_pte inverts pt_entry exactly for table addresses below 4 GB. */
  lemma ExtractInverts(pt: bv64, flags: bv64)
    requires PageAligned(Physical(pt)) && LowHalf(Physical(pt)) && AttrOnly(flags)
    ensures ExtractAddr(PtEntry(pt, flags)) == Physical(pt) <==> Below4G(Physical(pt))
  {
    AddressPart(Physical(pt), flags);
    WidenKeeps(Physical(pt));
  }

  function LowWord(a: bv64): bv64 { a & 0xFFFF_FFFF }

  lemma LowWordIsLow(a: bv64)
    ensures LowHalf(LowWord(a))
  {
  }

  lemma WidenCuts(pa: bv64)
    requires PageAligned(pa) && !Below4G(pa)
    ensures Widen(pa) == KERNEL_START + LowWord(pa)
  {
  }

  lemma CutSpelling(pa: bv64)
    requires PageAligned(pa) && !Below4G(pa)
    ensures Widen(pa) == PaToVa(LowWord(pa))
  {
    WidenCuts(pa);
    LowWordIsLow(pa);
    OrIsPlus(LowWord(pa));
  }

  /** From 4 GB on it finds the address cut to 32 bits. */
  lemma ExtractCuts(pt: bv64, flags: bv64)
    requires PageAligned(Physical(pt)) && LowHalf(Physical(pt)) && AttrOnly(flags) && !Below4G(Physical(pt))
    ensures ExtractAddr(PtEntry(pt, flags)) == PaToVa(LowWord(Physical(pt)))
  {
    AddressPart(Physical(pt), flags);
    CutSpelling(Physical(pt));
  }

  /** The code's walk and the hardware's read the same table address back out of an entry. */
  lemma EntryRoundTrip(pt: bv64, flags: bv64)
    requires TableAddr(pt) && FlagsOk(flags)
    ensures var e := PtEntry(pt, flags);
            IsDescriptor(e) && e != 0 && ExtractAddr(e) == VaToPa(pt) && HwAddr(e) == VaToPa(pt)
  {
    Below4GIsLow(Physical(pt));
    ExtractInverts(pt, flags);
    AddressPart(Physical(pt), flags);
    DescriptorPart(Physical(pt), flags);
  }

  lemma LeafParts(pa: bv64, flags: bv64)
    requires PageAligned(pa) && pa <= ADDR_MASK && AttrOnly(flags)
    ensures HwAddr(Or(pa, flags)) == pa && Or(pa, flags) & ATTR_MASK == flags
  {
  }

  lemma LowIsPhysical(pa: bv64)
    requires pa <= ADDR_MASK
    ensures Physical(pa) == pa
  {
  }

  /** A leaf entry made from an aligned physical page gives back that page and those attributes. */
  lemma LeafDecodes(pa: bv64, flags: bv64)
    requires PageAligned(pa) && pa <= ADDR_MASK && FlagsOk(flags)
    ensures IsDescriptor(PtEntry(pa, flags))
    ensures HwAddr(PtEntry(pa, flags)) == pa && PtEntry(pa, flags) & ATTR_MASK == flags
  {
    LowIsPhysical(pa);
    DescriptorPart(pa, flags);
    LeafParts(pa, flags);
  }

  // ---------------------------------------------------------------- attributes of the format

  /** The attribute fields of a page descriptor (DDI 0487, "Attribute fields in stage 1 VMSAv8-64 Block
      and Page descriptors"): bits 1:0, AttrIndx 4:2, NS 5, AP 7:6, SH 9:8, AF 10, nG 11, PXN 53, UXN 54. */
  datatype Attributes = Attributes(kind: bv64, attrIndx: bv64, ns: bv64, ap: bv64, sh: bv64, af: bv64, ng: bv64, pxn: bv64, uxn: bv64)

  function AttributesOf(pte: bv64): Attributes {
    Attributes(pte & 3, (pte >> 2) & 7, (pte >> 5) & 1, (pte >> 6) & 3, (pte >> 8) & 3, (pte >> 10) & 1, (pte >> 11) & 1,
               (pte >> 53) & 1, (pte >> 54) & 1)
  }

  /** What the four flag words say. Kernel pages are normal memory and not for execution at EL0, user
      pages normal memory and not for execution at EL1; both are inner shareable and open to EL1 alone.
      Device and non-cacheable pages are outer shareable and not for execution at EL0. */
  lemma FlagWords()
    ensures AttributesOf(PTE_FLAGS_KERNEL_GENERIC) == Attributes(3, 1, 0, 0, 3, 1, 0, 0, 1)
    ensures AttributesOf(PTE_FLAGS_USER_GENERIC) == Attributes(3, 1, 0, 0, 3, 1, 0, 1, 0)
    ensures AttributesOf(PTE_FLAGS_IO) == Attributes(3, 2, 0, 0, 2, 1, 0, 0, 1)
    ensures AttributesOf(PTE_FLAGS_NC) == Attributes(3, 0, 0, 0, 2, 1, 0, 0, 1)
  {
  }

  /** The attribute fields lie where the kernel keeps attributes. */
  lemma FieldsInMask(e: bv64, flags: bv64)
    requires e & ATTR_MASK == flags
    ensures AttributesOf(e) == AttributesOf(flags)
  {
  }

  /** The hardware's address is bits 47:12. */
  lemma AddressBits(pte: bv64)
    ensures HwAddr(pte) == ((pte >> 12) & 0xF_FFFF_FFFF) << 12
  {
  }

  // ---------------------------------------------------------------- virtual addresses

  /** meta->index[level - 1] */
  function Field(va: bv64, level: nat): bv9
    requires 1 <= level <= 3
  {
    if level == 1 then ((va >> 30) & 0x1FF) as bv9
    else if level == 2 then ((va >> 21) & 0x1FF) as bv9
    else ((va >> 12) & 0x1FF) as bv9
  }

  function Index(va: bv64, level: nat): (i: nat)
    requires 1 <= level <= 3
    ensures i < 512
  {
    Field(va, level) as nat
  }

  function Page(va: bv64): bv64 { va & PAGE_MASK }

  /** The address with the given fields: the inverse of extract_va_metadata. */
  function Compose(f1: bv9, f2: bv9, f3: bv9, offset: bv12): bv64 {
    ((f1 as bv64) << 30) | ((f2 as bv64) << 21) | ((f3 as bv64) << 12) | (offset as bv64)
  }

  /** extract_va_metadata is a bijection between 39-bit addresses and three 9-bit indices with a
      12-bit offset. */
  lemma MetadataBijection(va: bv64, f1: bv9, f2: bv9, f3: bv9, offset: bv12)
    requires va < 0x80_0000_0000
    ensures Compose(Field(va, 1), Field(va, 2), Field(va, 3), (va & 0xFFF) as bv12) == va
    ensures var c := Compose(f1, f2, f3, offset);
            c < 0x80_0000_0000 && Field(c, 1) == f1 && Field(c, 2) == f2 && Field(c, 3) == f3 && c & 0xFFF == offset as bv64
  {
  }

  lemma PageFields(a: bv64, b: bv64)
    requires Page(a) == Page(b)
    ensures Field(a, 1) == Field(b, 1) && Field(a, 2) == Field(b, 2) && Field(a, 3) == Field(b, 3)
  {
    assert ((a >> 30) & 0x1FF) == ((b >> 30) & 0x1FF);
    assert ((a >> 21) & 0x1FF) == ((b >> 21) & 0x1FF);
    assert ((a >> 12) & 0x1FF) == ((b >> 12) & 0x1FF);
  }

  lemma FieldsPage(a: bv64, b: bv64)
    requires Field(a, 1) == Field(b, 1) && Field(a, 2) == Field(b, 2) && Field(a, 3) == Field(b, 3)
    ensures Page(a) == Page(b)
  {
    assert ((a >> 30) & 0x1FF) == ((b >> 30) & 0x1FF);
    assert ((a >> 21) & 0x1FF) == ((b >> 21) & 0x1FF);
    assert ((a >> 12) & 0x1FF) == ((b >> 12) & 0x1FF);
  }

  lemma NatOfBv9(a: bv9, b: bv9)
    ensures a as nat == b as nat <==> a == b
  {
  }

  /** Two addresses take the same slots at all three levels exactly when they lie in one page. */
  lemma IndicesArePage(a: bv64, b: bv64)
    ensures Index(a, 1) == Index(b, 1) && Index(a, 2) == Index(b, 2) && Index(a, 3) == Index(b, 3)
            <==> Page(a) == Page(b)
  {
    NatOfBv9(Field(a, 1), Field(b, 1));
    NatOfBv9(Field(a, 2), Field(b, 2));
    NatOfBv9(Field(a, 3), Field(b, 3));
    if Page(a) == Page(b) { PageFields(a, b); }
    if Field(a, 1) == Field(b, 1) && Field(a, 2) == Field(b, 2) && Field(a, 3) == Field(b, 3) { FieldsPage(a, b); }
  }

  // ---------------------------------------------------------------- tables and walks

  /** A table by its physical address. */
  datatype Frame = Frame(pa: bv64)

  /** The table an upper entry points to, as the hardware reads it. */
  function HwNext(pte: bv64): Frame { Frame(HwAddr(pte)) }

  /** The contents of the tables. */
  type Tables = map<Frame, seq<bv64>>

  datatype Option<T> = None | Some(value: T)

  function Zeroed(): (s: seq<bv64>)
    ensures |s| == 512 && forall i :: 0 <= i < 512 ==> s[i] == 0
  {
    seq(512, i => 0)
  }

  function Entry(tb: Tables, t: Frame, i: nat): bv64 {
    if t in tb && i < |tb[t]| then tb[t][i] else 0
  }

  function Next(tb: Tables, t: Frame, i: nat): Option<Frame> {
    var e := Entry(tb, t, i);
    if IsDescriptor(e) then Some(HwNext(e)) else None
  }

  /** The table of the given level that a hardware walk for va reaches, following raw entries. */
  function Walk(tb: Tables, root: Frame, va: bv64, level: nat): (r: Option<Frame>)
    requires 1 <= level <= 3
  {
    if level == 1 then Some(root) else
    var w := Walk(tb, root, va, level - 1);
    if w == None then None else Next(tb, w.value, Index(va, level - 1))
  }

  /** The last-level entry that translates va; 0 when the walk stops before. */
  function Leaf(tb: Tables, root: Frame, va: bv64): bv64 {
    match Walk(tb, root, va, 3)
    case None => 0
    case Some(t) => Entry(tb, t, Index(va, 3))
  }

  /** Where a table hangs: its level, and the one slot that points to it. */
  datatype Place = Place(level: int, parent: Frame, slot: int)

  ghost predicate Points(tb: Tables, at: map<Frame, Place>, t: Frame, i: nat)
    requires t in at
  {
    var e := Entry(tb, t, i);
    IsDescriptor(e) && HwNext(e) in tb && HwNext(e) in at
    && at[HwNext(e)] == Place(at[t].level + 1, t, i)
  }

  /** The tables form a tree under root: every non-empty upper entry points to one table of the
      next level, and no table is pointed to twice. */
  ghost predicate Tree(tb: Tables, at: map<Frame, Place>, root: Frame) {
    && at.Keys == tb.Keys && root in tb && at[root].level == 1
    && (forall t :: t in tb ==> |tb[t]| == 512 && 1 <= at[t].level <= 3)
    && (forall t, i :: t in tb && 0 <= i < 512 && at[t].level < 3 && Entry(tb, t, i) != 0 ==> Points(tb, at, t, i))
  }

  /** The code's way of reading the address out of slot i agrees with the hardware's. */
  ghost predicate SlotReadable(tb: Tables, t: Frame, i: nat) {
    Entry(tb, t, i) == 0 || ExtractAddr(Entry(tb, t, i)) == HwAddr(Entry(tb, t, i))
  }

  ghost predicate Readable(tb: Tables, at: map<Frame, Place>) {
    forall t, i {:trigger SlotReadable(tb, t, i)} ::
      t in tb && t in at && at[t].level < 3 && 0 <= i < 512 ==> SlotReadable(tb, t, i)
  }

  lemma DescriptorNotZero(e: bv64)
    ensures IsDescriptor(e) ==> e != 0
  {
  }

  lemma WalkLevel(tb: Tables, at: map<Frame, Place>, root: Frame, va: bv64, level: nat)
    requires Tree(tb, at, root) && 1 <= level <= 3 && Walk(tb, root, va, level).Some?
    ensures var t := Walk(tb, root, va, level).value;
            && t in tb && at[t].level == level
            && (level > 1 ==> && Walk(tb, root, va, level - 1).Some?
                              && at[t] == Place(level, Walk(tb, root, va, level - 1).value, Index(va, level - 1)))
  {
    if level > 1 {
      WalkLevel(tb, at, root, va, level - 1);
      var p := Walk(tb, root, va, level - 1).value;
      var i := Index(va, level - 1);
      DescriptorNotZero(Entry(tb, p, i));
      assert Points(tb, at, p, i);
    }
  }

  /** Two walks that reach the same last-level table took the same slots. */
  lemma SameTable(tb: Tables, at: map<Frame, Place>, root: Frame, a: bv64, b: bv64)
    requires Tree(tb, at, root)
    requires Walk(tb, root, a, 3).Some? && Walk(tb, root, a, 3) == Walk(tb, root, b, 3)
    ensures Index(a, 1) == Index(b, 1) && Index(a, 2) == Index(b, 2)
  {
    WalkLevel(tb, at, root, a, 3);
    WalkLevel(tb, at, root, b, 3);
    WalkLevel(tb, at, root, a, 2);
    WalkLevel(tb, at, root, b, 2);
  }

  // ---------------------------------------------------------------- the two table updates

  function WithTable(tb: Tables, t: Frame, i: nat, e: bv64): Tables
    requires t in tb && i < |tb[t]|
  {
    tb[t := tb[t][i := e]][HwNext(e) := Zeroed()]
  }

  ghost predicate CanHang(tb: Tables, at: map<Frame, Place>, root: Frame, t: Frame, i: nat, e: bv64) {
    && Tree(tb, at, root) && t in tb && i < 512 && at[t].level < 3 && tb[t][i] == 0
    && IsDescriptor(e) && HwNext(e) !in tb
  }

  lemma HangKeepsTree(tb: Tables, at: map<Frame, Place>, root: Frame, t: Frame, i: nat, e: bv64)
    requires CanHang(tb, at, root, t, i, e)
    ensures Tree(WithTable(tb, t, i, e), at[HwNext(e) := Place(at[t].level + 1, t, i)], root)
  {
    var q := HwNext(e);
    var tb', at' := WithTable(tb, t, i, e), at[q := Place(at[t].level + 1, t, i)];
    forall u, j | u in tb' && 0 <= j < 512 && at'[u].level < 3 && Entry(tb', u, j) != 0
      ensures Points(tb', at', u, j)
    {
      if u == t && j == i {
        assert Entry(tb', u, j) == e;
      } else {
        assert u != q && Entry(tb', u, j) == Entry(tb, u, j);
        assert Points(tb, at, u, j);
      }
    }
  }

  lemma HangEntry(tb: Tables, at: map<Frame, Place>, root: Frame, t: Frame, i: nat, e: bv64, u: Frame, j: nat)
    requires CanHang(tb, at, root, t, i, e) && u in tb
    ensures Entry(WithTable(tb, t, i, e), u, j) == if u == t && j == i then e else Entry(tb, u, j)
  {
  }

  lemma HangReadable(tb: Tables, at: map<Frame, Place>, root: Frame, t: Frame, i: nat, e: bv64)
    requires CanHang(tb, at, root, t, i, e) && Readable(tb, at) && ExtractAddr(e) == HwAddr(e)
    ensures Readable(WithTable(tb, t, i, e), at[HwNext(e) := Place(at[t].level + 1, t, i)])
  {
    var tb', at' := WithTable(tb, t, i, e), at[HwNext(e) := Place(at[t].level + 1, t, i)];
    forall u, j | u in tb' && u in at' && at'[u].level < 3 && 0 <= j < 512 ensures SlotReadable(tb', u, j) {
      if u in tb {
        HangEntry(tb, at, root, t, i, e, u, j);
        assert SlotReadable(tb, u, j);
      } else {
        assert Entry(tb', u, j) == 0;
      }
    }
  }

  lemma SetReadable(tb: Tables, at: map<Frame, Place>, root: Frame, t: Frame, i: nat, e: bv64)
    requires Tree(tb, at, root) && t in tb && at[t].level == 3 && i < 512 && Readable(tb, at)
    ensures Readable(WithEntry(tb, t, i, e), at)
  {
    var tb' := WithEntry(tb, t, i, e);
    forall u, j | u in tb' && u in at && at[u].level < 3 && 0 <= j < 512 ensures SlotReadable(tb', u, j) {
      SetEntry(tb, at, root, t, i, e, u, j);
      assert SlotReadable(tb, u, j);
    }
  }

  lemma HangNext(tb: Tables, at: map<Frame, Place>, root: Frame, t: Frame, i: nat, e: bv64, u: Frame, j: nat)
    requires CanHang(tb, at, root, t, i, e)
    ensures u in tb ==> Next(WithTable(tb, t, i, e), u, j) == if u == t && j == i then Some(HwNext(e)) else Next(tb, u, j)
    ensures Next(tb, t, i) == None
    ensures Next(WithTable(tb, t, i, e), HwNext(e), j) == None
  {
    assert !IsDescriptor(0);
    if u in tb { HangEntry(tb, at, root, t, i, e, u, j); }
    assert Entry(WithTable(tb, t, i, e), HwNext(e), j) == 0;
  }

  /** Hanging an empty table below an empty slot changes no walk that got through before, and the
      new walks end in the empty table. */
  lemma HangWalk(tb: Tables, at: map<Frame, Place>, root: Frame, t: Frame, i: nat, e: bv64, va: bv64, level: nat)
    requires CanHang(tb, at, root, t, i, e) && 1 <= level <= 3
    ensures var w, w' := Walk(tb, root, va, level), Walk(WithTable(tb, t, i, e), root, va, level);
            w' == w || (w == None && w' == Some(HwNext(e)))
  {
    if level > 1 {
      HangWalk(tb, at, root, t, i, e, va, level - 1);
      var w := Walk(tb, root, va, level - 1);
      if w.Some? { WalkLevel(tb, at, root, va, level - 1); }
      HangNext(tb, at, root, t, i, e, if w.Some? then w.value else t, Index(va, level - 1));
    }
  }

  /** Creating an intermediate table changes no translation. */
  lemma HangKeepsLeaf(tb: Tables, at: map<Frame, Place>, root: Frame, t: Frame, i: nat, e: bv64, va: bv64)
    requires CanHang(tb, at, root, t, i, e)
    ensures Leaf(WithTable(tb, t, i, e), root, va) == Leaf(tb, root, va)
  {
    HangWalk(tb, at, root, t, i, e, va, 3);
    if Walk(tb, root, va, 3).Some? { WalkLevel(tb, at, root, va, 3); }
  }

  /** How many tables the walk for va still lacks. */
  function Missing(tb: Tables, root: Frame, va: bv64): nat {
    (if Walk(tb, root, va, 2) == None then 1 else 0) + (if Walk(tb, root, va, 3) == None then 1 else 0)
  }

  /** Hanging a table at the slot where va's walk stops gets the walk one level further. */
  lemma HangAdvances(tb: Tables, at: map<Frame, Place>, root: Frame, t: Frame, e: bv64, va: bv64, level: nat)
    requires 1 <= level < 3 && CanHang(tb, at, root, t, Index(va, level), e)
    requires Walk(tb, root, va, level) == Some(t)
    ensures var tb' := WithTable(tb, t, Index(va, level), e);
            && Walk(tb', root, va, level + 1) == Some(HwNext(e))
            && Missing(tb', root, va) == Missing(tb, root, va) - 1
  {
    var i := Index(va, level);
    WalkLevel(tb, at, root, va, level);
    HangWalk(tb, at, root, t, i, e, va, level);
    HangNext(tb, at, root, t, i, e, t, i);
    if level == 1 { HangNext(tb, at, root, t, i, e, t, Index(va, 2)); }
  }

  function WithEntry(tb: Tables, t: Frame, i: nat, e: bv64): Tables
    requires t in tb && i < |tb[t]|
  {
    tb[t := tb[t][i := e]]
  }

  lemma SetEntry(tb: Tables, at: map<Frame, Place>, root: Frame, t: Frame, i: nat, e: bv64, u: Frame, j: nat)
    requires Tree(tb, at, root) && t in tb && i < 512 && u in tb
    ensures Entry(WithEntry(tb, t, i, e), u, j) == if u == t && j == i then e else Entry(tb, u, j)
  {
  }

  lemma SetWalk(tb: Tables, at: map<Frame, Place>, root: Frame, t: Frame, i: nat, e: bv64, va: bv64, level: nat)
    requires Tree(tb, at, root) && t in tb && at[t].level == 3 && i < 512 && 1 <= level <= 3
    ensures Walk(WithEntry(tb, t, i, e), root, va, level) == Walk(tb, root, va, level)
  {
    if level > 1 {
      SetWalk(tb, at, root, t, i, e, va, level - 1);
      var w := Walk(tb, root, va, level - 1);
      if w.Some? {
        WalkLevel(tb, at, root, va, level - 1);
        SetEntry(tb, at, root, t, i, e, w.value, Index(va, level - 1));
      }
    }
  }

  lemma SetKeepsTree(tb: Tables, at: map<Frame, Place>, root: Frame, t: Frame, i: nat, e: bv64)
    requires Tree(tb, at, root) && t in tb && at[t].level == 3 && i < 512
    ensures Tree(WithEntry(tb, t, i, e), at, root)
  {
    var tb' := WithEntry(tb, t, i, e);
    forall u, j | u in tb' && 0 <= j < 512 && at[u].level < 3 && Entry(tb', u, j) != 0 ensures Points(tb', at, u, j) {
      assert Points(tb, at, u, j);
    }
  }

  /** Only addresses of va's page reach the slot that va's walk reaches. */
  lemma SlotIsPage(tb: Tables, at: map<Frame, Place>, root: Frame, va: bv64, other: bv64)
    requires Tree(tb, at, root) && Walk(tb, root, va, 3).Some?
    ensures Walk(tb, root, other, 3) == Walk(tb, root, va, 3) && Index(other, 3) == Index(va, 3)
            <==> Page(other) == Page(va)
  {
    IndicesArePage(va, other);
    SamePageWalk(tb, root, va, other);
    if Walk(tb, root, other, 3) == Walk(tb, root, va, 3) { SameTable(tb, at, root, va, other); }
  }

  /** Writing the last-level slot that va's walk reaches changes the translation of va's page and
      of no other page. */
  lemma SetLeaf(tb: Tables, at: map<Frame, Place>, root: Frame, va: bv64, e: bv64, other: bv64)
    requires Tree(tb, at, root) && Walk(tb, root, va, 3).Some?
    ensures var t := Walk(tb, root, va, 3).value; t in tb && at[t].level == 3 && |tb[t]| == 512
    ensures Leaf(WithEntry(tb, Walk(tb, root, va, 3).value, Index(va, 3), e), root, other)
            == if Page(other) == Page(va) then e else Leaf(tb, root, other)
  {
    var t, i, w := Walk(tb, root, va, 3).value, Index(va, 3), Walk(tb, root, other, 3);
    WalkLevel(tb, at, root, va, 3);
    SetWalk(tb, at, root, t, i, e, other, 3);
    SlotIsPage(tb, at, root, va, other);
    if w.Some? {
      WalkLevel(tb, at, root, other, 3);
      SetEntry(tb, at, root, t, i, e, w.value, Index(other, 3));
    }
  }

  lemma SamePageWalk(tb: Tables, root: Frame, a: bv64, b: bv64)
    ensures Page(a) == Page(b) ==> Walk(tb, root, a, 3) == Walk(tb, root, b, 3) && Index(a, 3) == Index(b, 3)
  {
    IndicesArePage(a, b);
    assert Walk(tb, root, a, 1) == Walk(tb, root, b, 1);
    if Page(a) == Page(b) { assert Walk(tb, root, a, 2) == Walk(tb, root, b, 2); }
  }

  // ---------------------------------------------------------------- attributes

  /** Setting attribute bits keeps the physical page and a valid entry valid. */
  lemma SetAttrKeepsAddress(pte: bv64, attr: bv64)
    requires AttrOnly(attr)
    ensures HwAddr(Or(pte, attr)) == HwAddr(pte)
    ensures IsDescriptor(pte) ==> IsDescriptor(Or(pte, attr))
  {
  }

  /** Clearing attribute bits keeps the physical page; the entry of a mapped page stays valid
      exactly when the bits leave out the two type bits. */
  lemma ClearAttrKeepsAddress(pte: bv64, attr: bv64)
    requires AttrOnly(attr)
    ensures HwAddr(Clear(pte, attr)) == HwAddr(pte)
    ensures IsDescriptor(pte) ==> (IsDescriptor(Clear(pte, attr)) <==> attr & 3 == 0)
  {
  }

  /** Set then clear restores the entry exactly when none of the bits was there before. */
  lemma SetThenClear(pte: bv64, attr: bv64)
    ensures Clear(Or(pte, attr), attr) == pte <==> pte & attr == 0
  {
  }

  // ---------------------------------------------------------------- leaf entries

  /** The 39-bit half, and everything above it, that an address lies in. */
  function Half(a: bv64): bv64 { a >> 39 }

  function Sum(a: bv64, b: bv64): bv64 { a + b }

  function Offset(va: bv64): bv64 { va & 0xFFF }

  /** What map_pa_to_va_pg writes: the offset of va goes into the entry along with pa. */
  function LeafEntry(pa: bv64, va: bv64, flags: bv64): bv64 {
    PtEntry(Sum(pa, Offset(va)), flags)
  }

  function OrDefault(flags: bv64): bv64 {
    if flags == 0 then PTE_FLAGS_KERNEL_GENERIC else flags
  }

  lemma NoOffset(a: bv64, va: bv64)
    requires PageAligned(va)
    ensures Sum(a, Offset(va)) == a
  {
    assert Offset(va) == 0;
  }

  predicate InHalf(a: bv64) {
    Half(a) == 0 || (Half(a) == 0x1FF_FFFF && a != KERNEL_START)
  }

  lemma PhysicalLow(a: bv64)
    requires PageAligned(a) && Half(a) == 0
    ensures Physical(a) == a && Page(a) == a
  {
  }

  lemma KernelPage(a: bv64)
    requires PageAligned(a) && Half(a) == 0x1FF_FFFF && a != KERNEL_START
    ensures a > KERNEL_START && a - KERNEL_START == Page(a)
  {
  }

  lemma PhysicalPage(a: bv64)
    requires PageAligned(a) && InHalf(a)
    ensures Physical(a) == Page(a)
  {
    if Half(a) == 0 { PhysicalLow(a); } else { KernelPage(a); }
  }

  /** Mapping an aligned address to itself, from either half, maps the low page of its number. */
  lemma IdentityEntry(a: bv64, flags: bv64)
    requires PageAligned(a) && InHalf(a)
    ensures LeafEntry(a, a, flags) == Or(Page(a), flags)
  {
    NoOffset(a, a);
    PhysicalPage(a);
  }

  /** The physical page of an address that is physical, or lies in one of the 39-bit halves. */
  predicate PhysicalOf(a: bv64, page: bv64) {
    if a <= ADDR_MASK then page == a else InHalf(a) && page == a & 0x7F_FFFF_F000
  }

  lemma PhysicalOfPage(pa: bv64, page: bv64)
    requires PageAligned(pa) && PhysicalOf(pa, page)
    ensures Physical(pa) == page && PageAligned(page) && page <= ADDR_MASK
  {
    if pa <= ADDR_MASK { LowIsPhysical(pa); } else { HighHalf(pa); PhysicalPage(pa); }
  }

  lemma HighHalf(a: bv64)
    requires a > ADDR_MASK && InHalf(a)
    ensures Half(a) == 0x1FF_FFFF
  {
  }

  /** The entry translates to the page, with these attributes. */
  predicate Translates(e: bv64, page: bv64, flags: bv64) {
    && IsDescriptor(e) && HwAddr(e) == page && e & ATTR_MASK == flags && AttributesOf(e) == AttributesOf(flags)
  }

  lemma OrTranslates(page: bv64, flags: bv64)
    requires PageAligned(page) && page <= ADDR_MASK && FlagsOk(flags)
    ensures Translates(Or(page, flags), page, flags)
  {
    DescriptorPart(page, flags);
    LeafParts(page, flags);
    FieldsInMask(Or(page, flags), flags);
  }

  /** Mapping an aligned va to an aligned pa makes an entry that leads to pa's physical page and has
      exactly the attributes asked for. */
  lemma LeafTranslates(pa: bv64, va: bv64, flags: bv64, page: bv64)
    requires PageAligned(pa) && PageAligned(va) && PhysicalOf(pa, page) && FlagsOk(flags)
    ensures Translates(LeafEntry(pa, va, flags), page, flags)
  {
    PhysicalOfPage(pa, page);
    LeafIsOr(pa, va, flags, page);
    OrTranslates(page, flags);
  }

  lemma LeafIsOr(pa: bv64, va: bv64, flags: bv64, page: bv64)
    requires PageAligned(va) && Physical(pa) == page
    ensures LeafEntry(pa, va, flags) == Or(page, flags)
  {
    NoOffset(pa, va);
  }

  function Upper(a: bv64): bv64 { a & 0xFFFF_FFFF_FFFF_F000 }

  lemma AlignedIsUpper(a: bv64)
    requires PageAligned(a)
    ensures a == Upper(a)
  {
  }

  lemma NoCarry(a: bv64, va: bv64)
    ensures Sum(Upper(a), Offset(va)) == Or(Upper(a), Offset(va))
  {
  }

  lemma OffsetFits(pa: bv64, va: bv64)
    requires PageAligned(pa)
    ensures Sum(pa, Offset(va)) == Or(pa, Offset(va))
  {
    AlignedIsUpper(pa);
    NoCarry(pa, va);
  }

  lemma StaysLow(pa: bv64, offset: bv64)
    requires PageAligned(pa) && pa <= ADDR_MASK && offset <= 0xFFF
    ensures Physical(Or(pa, offset)) == Or(pa, offset)
  {
  }

  lemma OffsetParts(pa: bv64, offset: bv64, flags: bv64)
    requires PageAligned(pa) && pa <= ADDR_MASK && offset <= 0xFFF && FlagsOk(flags)
    ensures HwAddr(Or(Or(pa, offset), flags)) == pa
    ensures Or(Or(pa, offset), flags) & ATTR_MASK == flags <==> Clear(offset, flags) == 0
  {
  }

  lemma OffsetSmall(va: bv64)
    ensures Offset(va) <= 0xFFF
  {
  }

  /** An unaligned va leads to the same page. Its offset is written over the attributes, which stay
      what was asked for exactly when they have every bit of the offset. */
  lemma UnalignedLeaf(pa: bv64, va: bv64, flags: bv64)
    requires PageAligned(pa) && pa <= ADDR_MASK && FlagsOk(flags)
    ensures HwAddr(LeafEntry(pa, va, flags)) == pa
    ensures LeafEntry(pa, va, flags) & ATTR_MASK == flags <==> Clear(va & 0xFFF, flags) == 0
  {
    var offset := Offset(va);
    OffsetFits(pa, va);
    OffsetSmall(va);
    StaysLow(pa, offset);
    EntryWithOffset(pa, va, offset, flags);
    OffsetParts(pa, offset, flags);
  }

  lemma EntryWithOffset(pa: bv64, va: bv64, offset: bv64, flags: bv64)
    requires offset == Offset(va) && Sum(pa, offset) == Or(pa, offset) && Physical(Or(pa, offset)) == Or(pa, offset)
    ensures LeafEntry(pa, va, flags) == Or(Or(pa, offset), flags)
  {
  }

  // ---------------------------------------------------------------- what a mapping leaves

  /** The default that map_pa_to_va_pg takes for flags of 0. */
  lemma DefaultIsKernel(flags: bv64)
    ensures flags == 0 ==> OrDefault(flags) == PTE_FLAGS_KERNEL_GENERIC
                           && AttributesOf(OrDefault(flags)) == Attributes(3, 1, 0, 0, 3, 1, 0, 0, 1)
    ensures flags != 0 ==> OrDefault(flags) == flags
  {
    FlagWords();
  }

  /** Every address of va's page translates to pa's physical page, with the flags, or for 0 with the
      attributes of kernel memory. */
  ghost predicate MapsTo(tb: Tables, root: Frame, va: bv64, pa: bv64, flags: bv64) {
    forall v, page :: Page(v) == Page(va) && PhysicalOf(pa, page) ==> Reaches(Leaf(tb, root, v), page, flags)
  }

  predicate Reaches(e: bv64, page: bv64, flags: bv64) {
    && IsDescriptor(e) && HwAddr(e) == page
    && if flags == 0 then AttributesOf(e) == Attributes(3, 1, 0, 0, 3, 1, 0, 0, 1) else AttrBits(e) == flags
  }

  function AttrBits(e: bv64): bv64 { e & ATTR_MASK }

  lemma MapsToIf(tb: Tables, root: Frame, va: bv64, pa: bv64, flags: bv64)
    requires PageAligned(pa) && PageAligned(va) && FlagsOk(OrDefault(flags))
    requires forall v :: Page(v) == Page(va) ==> Leaf(tb, root, v) == LeafEntry(pa, va, OrDefault(flags))
    ensures MapsTo(tb, root, va, pa, flags)
  {
    forall v, page | Page(v) == Page(va) && PhysicalOf(pa, page) ensures Reaches(Leaf(tb, root, v), page, flags) {
      LeafReaches(pa, va, flags, page);
    }
  }

  lemma LeafReaches(pa: bv64, va: bv64, flags: bv64, page: bv64)
    requires PageAligned(pa) && PageAligned(va) && FlagsOk(OrDefault(flags)) && PhysicalOf(pa, page)
    ensures Reaches(LeafEntry(pa, va, OrDefault(flags)), page, flags)
  {
    LeafTranslates(pa, va, OrDefault(flags), page);
    DefaultIsKernel(flags);
  }

  /** Every entry that differs from tb0 to tb, except perhaps the one at slot i of t, has the flags as its
      attributes. Folded. */
  ghost predicate Tagged(tb0: Tables, tb: Tables, flags: bv64, t: Option<Frame>, i: nat) {
    forall z {:trigger Look(z)} :: Look(z) && z == Tags ==>
      forall u, j :: Entry(tb, u, j) != Entry(tb0, u, j) ==> AttrBits(Entry(tb, u, j)) == flags || (t == Some(u) && j == i)
  }

  lemma TagsNothing(tb: Tables, flags: bv64)
    ensures Tagged(tb, tb, flags, None, 0)
  {
  }

  lemma TagsMore(tb0: Tables, tb: Tables, flags: bv64, t: Option<Frame>, i: nat)
    requires Tagged(tb0, tb, flags, None, 0)
    ensures Tagged(tb0, tb, flags, t, i)
  {
    assert Look(Tags);
  }

  lemma HangTags(tb0: Tables, tb: Tables, at: map<Frame, Place>, root: Frame, t: Frame, i: nat, e: bv64, flags: bv64)
    requires CanHang(tb, at, root, t, i, e) && AttrBits(e) == flags && Tagged(tb0, tb, flags, None, 0)
    ensures Tagged(tb0, WithTable(tb, t, i, e), flags, None, 0)
  {
    assert Look(Tags);
    var tb' := WithTable(tb, t, i, e);
    forall u, j | Entry(tb', u, j) != Entry(tb0, u, j) ensures AttrBits(Entry(tb', u, j)) == flags {
      if u in tb { HangEntry(tb, at, root, t, i, e, u, j); } else { assert Entry(tb', u, j) == 0 == Entry(tb, u, j); }
    }
  }

  lemma SetTags(tb0: Tables, tb: Tables, t: Frame, i: nat, e: bv64, flags: bv64)
    requires t in tb && i < |tb[t]| && Tagged(tb0, tb, flags, None, 0)
    ensures Tagged(tb0, WithEntry(tb, t, i, e), flags, Some(t), i)
  {
    assert Look(Tags);
    var tb' := WithEntry(tb, t, i, e);
    forall u, j: nat | u != t || j != i ensures Entry(tb', u, j) == Entry(tb, u, j) {}
  }

  /** A table's entry has exactly the attributes asked for. */
  lemma TableTag(pt: bv64, flags: bv64)
    requires TableAddr(pt) && FlagsOk(flags)
    ensures AttrBits(PtEntry(pt, flags)) == flags
  {
    Below4GIsLow(Physical(pt));
    TableParts(Physical(pt), flags);
  }

  lemma TableParts(pa: bv64, flags: bv64)
    requires PageAligned(pa) && Below4G(pa) && AttrOnly(flags)
    ensures AttrBits(Or(pa, flags)) == flags
  {
  }
}
