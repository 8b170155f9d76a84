/** The buddy allocator's state as a set of blocks: the tiling of the managed range, the effect
    of one split and one merge, and what maximal coalescing implies. */
module BuddyTiling {
  import opened Dyadic

  datatype Block = Block(page: nat, order: nat, used: bool) {
    function End(): nat { page + Size(order) }
    predicate Contains(a: nat) { page <= a < End() }
    predicate Meets(a: nat, k: nat) { page < a + Size(k) && a < End() }
    predicate Apart(that: Block) { End() <= that.page || that.End() <= page }
  }

  ghost predicate InRange(b: Block, base: nat, n: nat) {
    b.order <= n && Aligned(b.page, b.order) && base <= b.page && b.End() <= base + Size(n)
  }

  ghost predicate Covered(s: set<Block>, a: nat) {
    exists b :: b in s && b.Contains(a)
  }

  /** Aligned to their size, pairwise disjoint, and covering exactly [base, base + Size(n)). */
  ghost predicate Tiled(s: set<Block>, base: nat, n: nat) {
    && Aligned(base, n)
    && (forall b :: b in s ==> InRange(b, base, n))
    && (forall b, c :: b in s && c in s && b != c ==> b.Apart(c))
    && (forall a :: base <= a < base + Size(n) ==> Covered(s, a))
  }

  ghost predicate FreeBuddies(b: Block, c: Block) {
    !b.used && !c.used && b.order == c.order && c.page == Buddy(b.page, b.order)
  }

  /** No two free blocks of the same order are buddies. */
  ghost predicate Coalesced(s: set<Block>) {
    forall b, c :: b in s && c in s ==> !FreeBuddies(b, c)
  }

  /** An aligned run of 2^k pages inside the range that no used block meets. */
  ghost predicate FreeRun(s: set<Block>, base: nat, n: nat, a: nat, k: nat) {
    && Aligned(a, k) && base <= a && a + Size(k) <= base + Size(n)
    && forall b :: b in s && b.Meets(a, k) ==> !b.used
  }

  function Whole(base: nat, n: nat): Block { Block(base, n, false) }

  function Used(s: set<Block>): set<Block> { set b | b in s && b.used }

  lemma WholeTiles(base: nat, n: nat)
    requires Aligned(base, n)
    ensures Tiled({Whole(base, n)}, base, n) && Coalesced({Whole(base, n)})
  {
    var w := Whole(base, n);
    BuddyHalves(base, n);
    forall a | base <= a < base + Size(n) ensures Covered({w}, a) {
      assert w in {w} && w.Contains(a);
    }
  }

  // ---------------------------------------------------------------- one step each

  function SplitSet(s: set<Block>, b: Block): set<Block>
    requires b.order > 0
  {
    s - {b} + {Block(b.page, b.order - 1, false), Block(Buddy(b.page, b.order - 1), b.order - 1, false)}
  }

  lemma SplitTiles(s: set<Block>, base: nat, n: nat, b: Block)
    requires Tiled(s, base, n) && b in s && b.order > 0
    ensures Tiled(SplitSet(s, b), base, n)
  {
    var k := b.order - 1;
    Halves(b.page, k);
    SizeDouble(k);
    var lo, hi := Block(b.page, k, false), Block(b.page + Size(k), k, false);
    var t := SplitSet(s, b);
    assert lo.End() == hi.page && hi.End() == b.End();
    forall a | base <= a < base + Size(n) ensures Covered(t, a) {
      assert Covered(s, a);
      var c :| c in s && c.Contains(a);
      if c == b {
        assert lo in t && hi in t && (lo.Contains(a) || hi.Contains(a));
      } else {
        assert c in t;
      }
    }
    forall c | c in t ensures InRange(c, base, n) {}
    forall c, d | c in t && d in t && c != d ensures c.Apart(d) {
      assert c in s ==> c.Apart(b);
      assert d in s ==> d.Apart(b);
    }
  }

  /** A split replaces a free block by its two halves and keeps the tiling; only the two halves
      can be free buddies afterwards. */
  lemma SplitKeeps(s: set<Block>, base: nat, n: nat, b: Block)
    requires Tiled(s, base, n) && b in s && !b.used && b.order > 0
    requires Coalesced(s - {b})
    ensures Tiled(SplitSet(s, b), base, n)
    ensures Coalesced(SplitSet(s, b) - {Block(Buddy(b.page, b.order - 1), b.order - 1, false)})
  {
    SplitTiles(s, base, n, b);
    var k := b.order - 1;
    Halves(b.page, k);
    SizeDouble(k);
    var lo, hi := Block(b.page, k, false), Block(b.page + Size(k), k, false);
    var t := SplitSet(s, b);
    forall c | c in t - {hi} ensures c.page != hi.page { assert c.Apart(hi); }
    forall c, d | c in t - {hi} && d in t - {hi} ensures !FreeBuddies(c, d) {
      if d == lo && c.order == k {
        assert Aligned(c.page, k);
        BuddyHalves(c.page, k);
      }
    }
  }

  function MergeSet(s: set<Block>, b: Block, c: Block): set<Block> {
    s - {b, c} + {Block(if b.page < c.page then b.page else c.page, b.order + 1, false)}
  }

  lemma MergeTiles(s: set<Block>, base: nat, n: nat, b: Block, c: Block)
    requires Tiled(s, base, n) && b in s && c in s && b.order == c.order < n
    requires c.page == b.End() && Aligned(b.page, b.order + 1)
    ensures Tiled(MergeSet(s, b, c), base, n)
  {
    SizeDouble(b.order);
    var p := Block(b.page, b.order + 1, false);
    var t := MergeSet(s, b, c);
    assert t == s - {b, c} + {p} && p.End() == c.End();
    forall a | base <= a < base + Size(n) ensures Covered(t, a) {
      assert Covered(s, a);
      var d :| d in s && d.Contains(a);
      if d == b || d == c {
        assert p in t && p.Contains(a);
      } else {
        assert d in t;
      }
    }
    forall d | d in s - {b, c} ensures d.Apart(p) && p.Apart(d) {
      assert d.Apart(b) && d.Apart(c);
    }
  }

  /** A free block that has a free buddy is below the top order. */
  lemma BuddyBelowTop(s: set<Block>, base: nat, n: nat, b: Block, c: Block)
    requires Tiled(s, base, n) && b in s && c in s && FreeBuddies(b, c)
    ensures b.order < n
  {
    BuddyHalves(b.page, b.order);
    assert b.order == n ==> b.page == base && c.page == base;
  }

  /** Replacing two free buddies by their union keeps the tiling. */
  lemma MergeKeeps(s: set<Block>, base: nat, n: nat, b: Block, c: Block)
    requires Tiled(s, base, n) && b in s && c in s && FreeBuddies(b, c)
    ensures b.order < n
    ensures Tiled(MergeSet(s, b, c), base, n)
  {
    BuddyHalves(b.page, b.order);
    BuddyBelowTop(s, base, n, b, c);
    if b.page < c.page {
      MergeTiles(s, base, n, b, c);
    } else {
      MergeTiles(s, base, n, c, b);
      assert MergeSet(s, b, c) == MergeSet(s, c, b);
    }
  }

  /** Flipping one block's flag keeps the tiling. */
  lemma FlagKeeps(s: set<Block>, base: nat, n: nat, b: Block, used: bool)
    requires Tiled(s, base, n) && b in s
    ensures Tiled(s - {b} + {b.(used := used)}, base, n)
  {
    var c := b.(used := used);
    var t := s - {b} + {c};
    forall a | base <= a < base + Size(n) ensures Covered(t, a) {
      assert Covered(s, a);
      var d :| d in s && d.Contains(a);
      if d == b { assert c in t && c.Contains(a); } else { assert d in t; }
    }
  }

  /** In a tiling a start address belongs to one block. */
  lemma SamePage(s: set<Block>, base: nat, n: nat, b: Block, c: Block)
    requires Tiled(s, base, n) && b in s && c in s && b.page == c.page
    ensures b == c
  {
  }

  // ---------------------------------------------------------------- what coalescing gives

  /** The block covering a of order at least k contains the whole aligned run at a. */
  lemma CoverContains(s: set<Block>, base: nat, n: nat, b: Block, a: nat, k: nat)
    requires Tiled(s, base, n) && b in s && b.Meets(a, k) && Aligned(a, k) && k <= b.order
    ensures b.page <= a && a + Size(k) <= b.End()
  {
    Nested(a, k, b.page, b.order);
  }

  /** In a coalesced tiling every wholly free aligned run of 2^k pages lies inside one free
      block of order at least k. */
  lemma {:induction false} RunInBlock(s: set<Block>, base: nat, n: nat, a: nat, k: nat) returns (b: Block)
    requires Tiled(s, base, n) && Coalesced(s) && FreeRun(s, base, n, a, k)
    ensures b in s && !b.used && b.order >= k && b.page <= a && a + Size(k) <= b.End()
    decreases k
  {
    if k == 0 {
      assert Covered(s, a);
      b :| b in s && b.Contains(a);
      CoverContains(s, base, n, b, a, 0);
    } else {
      Halves(a, k - 1);
      SizeDouble(k - 1);
      var m := a + Size(k - 1);
      b := RunInBlock(s, base, n, a, k - 1);
      var c := RunInBlock(s, base, n, m, k - 1);
      if b.order == k - 1 && c.order == k - 1 {
        assert FreeBuddies(b, c);
        assert false;
      }
      if b.order < k { b := c; }
      CoverContains(s, base, n, b, a, k);
    }
  }

  /** With nothing in use, a coalesced tiling is the single initial block. */
  lemma NothingUsed(s: set<Block>, base: nat, n: nat)
    requires Tiled(s, base, n) && Coalesced(s) && Used(s) == {}
    ensures s == {Whole(base, n)}
  {
    forall b | b in s ensures !b.used { assert b !in Used(s); }
    var w := RunInBlock(s, base, n, base, n);
    assert w == Whole(base, n);
    forall b | b in s ensures b == w {
      if b != w { assert false; }
    }
  }

  lemma SameUsedContains(s: set<Block>, t: set<Block>, base: nat, n: nat, b: Block) returns (c: Block)
    requires Tiled(s, base, n) && Tiled(t, base, n) && Coalesced(t) && Used(s) == Used(t)
    requires b in s && !b.used
    ensures c in t && !c.used && c.order >= b.order && c.page <= b.page && b.End() <= c.End()
  {
    forall u | u in Used(t) ensures !u.Meets(b.page, b.order) {
      assert u in Used(s);
      assert u.Apart(b);
    }
    assert forall d :: d in t && d.used ==> d in Used(t);
    c := RunInBlock(t, base, n, b.page, b.order);
  }

  /** History leaves no trace: the blocks in use determine every block of a coalesced tiling. */
  lemma Canonical(s: set<Block>, t: set<Block>, base: nat, n: nat)
    requires Tiled(s, base, n) && Coalesced(s) && Tiled(t, base, n) && Coalesced(t)
    requires Used(s) == Used(t)
    ensures s == t
  {
    CanonicalSubset(s, t, base, n);
    CanonicalSubset(t, s, base, n);
  }

  lemma CanonicalSubset(s: set<Block>, t: set<Block>, base: nat, n: nat)
    requires Tiled(s, base, n) && Coalesced(s) && Tiled(t, base, n) && Coalesced(t)
    requires Used(s) == Used(t)
    ensures s <= t
  {
    forall b | b in s ensures b in t {
      if b.used {
        assert b in Used(s);
      } else {
        var c := SameUsedContains(s, t, base, n, b);
        var d := SameUsedContains(t, s, base, n, c);
        assert b == d || b.Apart(d);
      }
    }
  }
}
