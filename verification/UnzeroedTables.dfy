/** What hanging a table does to the translations when its page is not cleared first: create_pt takes
    the page as the allocator hands it out. */
module UnzeroedTables {
  import opened Folding
  import opened PageTable
  import opened PageRange
  import opened RangeCost

  /** A table with contents z below slot i of t. */
  function WithContents(tb: Tables, t: Frame, i: nat, e: bv64, z: seq<bv64>): Tables
    requires t in tb && i < |tb[t]|
  {
    tb[t := tb[t][i := e]][HwNext(e) := z]
  }

  /** Hanging a last-level table changes no translation exactly when its page was cleared. */
  lemma HangKeepsLeafIff(tb: Tables, at: map<Frame, Place>, root: Frame, t: Frame, e: bv64, z: seq<bv64>, va: bv64)
    requires CanHang(tb, at, root, t, Index(va, 2), e) && Walk(tb, root, va, 2) == Some(t) && |z| == 512
    ensures (forall v :: Leaf(WithContents(tb, t, Index(va, 2), e, z), root, v) == Leaf(tb, root, v)) <==> z == Zeroed()
  {
    var i := Index(va, 2);
    if z == Zeroed() {
      forall v ensures Leaf(WithContents(tb, t, i, e, z), root, v) == Leaf(tb, root, v) {
        HangKeepsLeaf(tb, at, root, t, i, e, v);
      }
    } else {
      var j :| 0 <= j < 512 && z[j] != 0;
      var v := SlotOf(va, j);
      ShowsThrough(tb, at, root, t, e, z, va, v, j);
    }
  }

  /** An address that shares va's upper slots and has last index j. */
  lemma SlotOf(va: bv64, j: nat) returns (v: bv64)
    requires j < 512
    ensures Index(v, 1) == Index(va, 1) && Index(v, 2) == Index(va, 2) && Index(v, 3) == j
  {
    var f := FieldOf(j);
    v := Compose(Field(va, 1), Field(va, 2), f, 0);
    MetadataBijection(0, Field(va, 1), Field(va, 2), f, 0);
  }

  lemma ShowsThrough(tb: Tables, at: map<Frame, Place>, root: Frame, t: Frame, e: bv64, z: seq<bv64>, va: bv64, v: bv64, j: nat)
    requires CanHang(tb, at, root, t, Index(va, 2), e) && Walk(tb, root, va, 2) == Some(t) && |z| == 512 && j < 512
    requires Index(v, 1) == Index(va, 1) && Index(v, 2) == Index(va, 2) && Index(v, 3) == j
    ensures Leaf(tb, root, v) == 0 && Leaf(WithContents(tb, t, Index(va, 2), e, z), root, v) == z[j]
  {
    var i := Index(va, 2);
    var tb' := WithContents(tb, t, i, e, z);
    WalkLevel(tb, at, root, va, 2);
    assert !IsDescriptor(0);
    assert Walk(tb, root, v, 1) == Walk(tb, root, va, 1) == Some(root) == Walk(tb', root, v, 1);
    assert Walk(tb, root, v, 2) == Some(t) && Walk(tb, root, v, 3) == None;
    assert Entry(tb', root, Index(v, 1)) == Entry(tb, root, Index(v, 1));
    assert Walk(tb', root, v, 2) == Some(t);
    assert Entry(tb', t, i) == e && Walk(tb', root, v, 3) == Some(HwNext(e));
  }
}
