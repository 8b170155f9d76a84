/** How many tables an address lacks, and how that number changes for every address when tables are
    hung on the way to one of them. */
module TableCount {
  import opened Folding
  import opened PageTable

  /** v goes through the same slots as va down to the level. */
  predicate Shares(v: bv64, va: bv64, level: nat) {
    (level >= 1 ==> Index(v, 1) == Index(va, 1)) && (level >= 2 ==> Index(v, 2) == Index(va, 2))
  }

  /** What is left of m missing tables of an address, when those on the way to another one exist down
      to the level; one and two say how far the two addresses go together. */
  function Left(m: nat, one: bool, two: bool, level: nat): nat {
    if level >= 3 && one && two then 0 else if level >= 2 && one && m >= 2 then 1 else m
  }

  /** From tb1 to tb2 the walk of va has been completed down to the level, and nothing else. */
  ghost predicate GrownTo(tb1: Tables, tb2: Tables, root: Frame, va: bv64, level: nat) {
    forall z {:trigger Look(z)} :: Look(z) && z == Growth ==>
      forall v :: Missing(tb2, root, v) == Left(Missing(tb1, root, v), Shares(v, va, 1), Shares(v, va, 2), level)
  }

  /** A new table at the slot where va's walk stops is one table less for the addresses that go
      through the slot, and changes nothing for the others. */
  lemma HangMissing(tb: Tables, at: map<Frame, Place>, root: Frame, t: Frame, e: bv64, va: bv64, level: nat, v: bv64)
    requires 1 <= level < 3 && CanHang(tb, at, root, t, Index(va, level), e) && Walk(tb, root, va, level) == Some(t)
    ensures Missing(WithTable(tb, t, Index(va, level), e), root, v)
            == Missing(tb, root, v) - if Shares(v, va, level) then 1 else 0
    ensures Shares(v, va, level) ==> Missing(tb, root, v) == 3 - level
  {
    if level == 1 {
      HangAtRoot(tb, at, root, e, va, v);
    } else {
      HangBelow(tb, at, root, t, e, va, v);
    }
  }

  lemma HangAtRoot(tb: Tables, at: map<Frame, Place>, root: Frame, e: bv64, va: bv64, v: bv64)
    requires CanHang(tb, at, root, root, Index(va, 1), e)
    ensures Missing(WithTable(tb, root, Index(va, 1), e), root, v)
            == Missing(tb, root, v) - if Shares(v, va, 1) then 1 else 0
    ensures Shares(v, va, 1) ==> Missing(tb, root, v) == 2
  {
    var i := Index(va, 1);
    var tb' := WithTable(tb, root, i, e);
    HangNext(tb, at, root, root, i, e, root, Index(v, 1));
    assert Walk(tb, root, v, 1) == Walk(tb', root, v, 1) == Some(root);
    var w := Walk(tb, root, v, 2);
    if Index(v, 1) == i {
      HangNext(tb, at, root, root, i, e, root, Index(v, 2));
      assert Walk(tb', root, v, 2) == Some(HwNext(e)) && w == None;
    } else if w.Some? {
      WalkLevel(tb, at, root, v, 2);
      HangNext(tb, at, root, root, i, e, w.value, Index(v, 2));
    }
  }

  lemma HangBelow(tb: Tables, at: map<Frame, Place>, root: Frame, t: Frame, e: bv64, va: bv64, v: bv64)
    requires CanHang(tb, at, root, t, Index(va, 2), e) && Walk(tb, root, va, 2) == Some(t)
    ensures Missing(WithTable(tb, t, Index(va, 2), e), root, v)
            == Missing(tb, root, v) - if Shares(v, va, 2) then 1 else 0
    ensures Shares(v, va, 2) ==> Missing(tb, root, v) == 1
  {
    var i := Index(va, 2);
    var tb' := WithTable(tb, t, i, e);
    WalkLevel(tb, at, root, va, 2);
    HangNext(tb, at, root, t, i, e, root, Index(v, 1));
    assert Walk(tb, root, v, 1) == Walk(tb', root, v, 1) == Walk(tb, root, va, 1) == Some(root);
    var w := Walk(tb, root, v, 2);
    assert Walk(tb', root, v, 2) == w;
    if w.Some? {
      WalkLevel(tb, at, root, v, 2);
      HangNext(tb, at, root, t, i, e, w.value, Index(v, 2));
    }
    assert Index(v, 1) == Index(va, 1) ==> w == Some(t);
  }

  lemma GrownStart(tb: Tables, root: Frame, va: bv64)
    ensures GrownTo(tb, tb, root, va, 1)
  {
  }

  /** Hanging a table takes the walk one level further. */
  lemma GrownByHang(tb0: Tables, tb: Tables, at: map<Frame, Place>, root: Frame, t: Frame, e: bv64, va: bv64, level: nat)
    requires 1 <= level < 3 && CanHang(tb, at, root, t, Index(va, level), e) && Walk(tb, root, va, level) == Some(t)
    requires GrownTo(tb0, tb, root, va, level)
    ensures GrownTo(tb0, WithTable(tb, t, Index(va, level), e), root, va, level + 1)
  {
    assert Look(Growth);
    forall v ensures Missing(WithTable(tb, t, Index(va, level), e), root, v)
                     == Left(Missing(tb0, root, v), Shares(v, va, 1), Shares(v, va, 2), level + 1) {
      HangMissing(tb, at, root, t, e, va, level, v);
    }
  }

  /** So does a table that is there already. */
  lemma GrownByWalk(tb0: Tables, tb: Tables, root: Frame, va: bv64, level: nat)
    requires 1 <= level < 3 && Walk(tb, root, va, level + 1).Some? && GrownTo(tb0, tb, root, va, level)
    ensures GrownTo(tb0, tb, root, va, level + 1)
  {
    assert Look(Growth);
    forall v ensures Missing(tb, root, v) == Left(Missing(tb0, root, v), Shares(v, va, 1), Shares(v, va, 2), level + 1) {
      if Shares(v, va, level) { SharedWalk(tb, root, va, v, level); }
    }
  }

  lemma SharedWalk(tb: Tables, root: Frame, va: bv64, v: bv64, level: nat)
    requires 1 <= level < 3 && Shares(v, va, level)
    ensures Walk(tb, root, v, level + 1) == Walk(tb, root, va, level + 1)
  {
    assert Walk(tb, root, v, 1) == Walk(tb, root, va, 1);
    assert Walk(tb, root, v, 2) == Walk(tb, root, va, 2);
  }

  /** Writing a last-level slot leaves every walk as it was. */
  lemma GrownBySet(tb0: Tables, tb: Tables, at: map<Frame, Place>, root: Frame, va: bv64, t: Frame, i: nat, e: bv64)
    requires Tree(tb, at, root) && t in tb && at[t].level == 3 && i < 512 && GrownTo(tb0, tb, root, va, 3)
    ensures GrownTo(tb0, WithEntry(tb, t, i, e), root, va, 3)
  {
    assert Look(Growth);
    forall v ensures Missing(WithEntry(tb, t, i, e), root, v) == Missing(tb, root, v) {
      SetWalk(tb, at, root, t, i, e, v, 2);
      SetWalk(tb, at, root, t, i, e, v, 3);
    }
  }

  /** Going together all the way, two addresses lack the same tables; going together out of the root,
      they both lack a table there or both do not. */
  lemma SharedMissing(tb: Tables, root: Frame, v: bv64, va: bv64)
    ensures Shares(v, va, 1) ==> (Missing(tb, root, v) == 2 <==> Missing(tb, root, va) == 2)
    ensures Shares(v, va, 1) && Shares(v, va, 2) ==> Missing(tb, root, v) == Missing(tb, root, va)
  {
    if Shares(v, va, 1) { SharedWalk(tb, root, va, v, 1); }
    if Shares(v, va, 1) && Shares(v, va, 2) { SharedWalk(tb, root, va, v, 2); }
  }
}
