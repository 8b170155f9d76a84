/** How many tables a range of pages needs that a tree does not have. */
module RangeCost {
  import opened Folding
  import opened PageTable
  import opened PageRange
  import opened TableCount

  // ---------------------------------------------------------------- pages and their tables

  lemma {:induction false} FieldOf(i: nat) returns (f: bv9)
    requires i < 512
    ensures f as nat == i
    decreases i
  {
    if i == 0 {
      f := 0;
      EndsOfBv9(f);
    } else {
      var g := FieldOf(i - 1);
      EndsOfBv9(g);
      f := g + 1;
      NextOfBv9(g, f);
    }
  }

  lemma Parts(p: nat)
    requires p < 0x800_0000
    ensures p / 0x4_0000 < 512 && p == Pack(p / 0x4_0000, p / 0x200 % 512, p % 512)
  {
  }

  /** Every page number below 2^27 is that of some address. */
  lemma SomeAddress(p: nat) returns (v: bv64)
    requires p < 0x800_0000
    ensures PageNo(v) == p
  {
    Parts(p);
    var f1 := FieldOf(p / 0x4_0000);
    var f2 := FieldOf(p / 0x200 % 512);
    var f3 := FieldOf(p % 512);
    v := Compose(f1, f2, f3, 0);
    MetadataBijection(0, f1, f2, f3, 0);
    PageNoIs(v);
  }

  /** The gigabyte and the 2-megabyte region of a page: what the tables of level 2 and 3 on its way
      stand for. */
  function Giga(p: nat): nat { p / 0x4_0000 }

  function Mega(p: nat): nat { p / 0x200 }

  lemma PackRegions(i: nat, j: nat, k: nat)
    requires j < 512 && k < 512
    ensures Giga(Pack(i, j, k)) == i && Mega(Pack(i, j, k)) == i * 512 + j
  {
  }

  /** The page number of an address and its upper two slots. */
  ghost predicate Located(v: bv64, p: nat, i: nat, j: nat) {
    p == PageNo(v) && Giga(p) == i && Mega(p) == i * 512 + j && exists k :: Indexed(v, i, j, k)
  }

  lemma Locate(v: bv64) returns (p: nat, i: nat, j: nat)
    ensures Located(v, p, i, j) && p == PageNo(v)
  {
    var k;
    i, j, k := Indices(v);
    p := Pack(i, j, k);
    PageNoAt(v, i, j, k);
    PackRegions(i, j, k);
  }

  lemma SharesIs(v: bv64, p: nat, i: nat, j: nat, w: bv64, q: nat, k: nat, l: nat)
    requires Located(v, p, i, j) && Located(w, q, k, l)
    ensures Shares(v, w, 1) <==> i == k
    ensures Shares(v, w, 1) && Shares(v, w, 2) <==> i == k && j == l
  {
    var a :| Indexed(v, i, j, a);
    var b :| Indexed(w, k, l, b);
    IndexedShares(v, i, j, a, w, k, l, b);
  }

  lemma IndexedShares(v: bv64, i: nat, j: nat, a: nat, w: bv64, k: nat, l: nat, b: nat)
    requires Indexed(v, i, j, a) && Indexed(w, k, l, b)
    ensures Shares(v, w, 1) <==> i == k
    ensures Shares(v, w, 1) && Shares(v, w, 2) <==> i == k && j == l
  {
    assert Look(Slots);
  }

  /** m is how many tables the pages of number p lack, folded. */
  ghost predicate Lacks(tb: Tables, root: Frame, p: nat, m: nat) {
    m <= 2 && forall z {:trigger Look(z)} :: Look(z) && z == Lack ==>
      exists v, i, j :: Located(v, p, i, j) && Missing(tb, root, v) == m
  }

  lemma SomeLack(tb: Tables, root: Frame, p: nat)
    requires p < 0x800_0000
    ensures exists m :: Lacks(tb, root, p, m)
  {
    var v := SomeAddress(p);
    var q, i, j := Locate(v);
    assert Located(v, p, i, j);
    assert Lacks(tb, root, p, Missing(tb, root, v));
  }

  ghost function Absent(tb: Tables, root: Frame, p: nat): (r: nat)
    ensures r <= 2
  {
    if p >= 0x800_0000 then 2 else
    SomeLack(tb, root, p);
    var m: nat :| Lacks(tb, root, p, m); m
  }

  lemma AbsentAt(tb: Tables, root: Frame, v: bv64, p: nat, i: nat, j: nat)
    requires Located(v, p, i, j)
    ensures Absent(tb, root, p) == Missing(tb, root, v)
  {
    var m := Absent(tb, root, p);
    SomeLack(tb, root, p);
    assert Lacks(tb, root, p, m) && Look(Lack);
    var w, k, l :| Located(w, p, k, l) && Missing(tb, root, w) == m;
    SharesIs(v, p, i, j, w, p, k, l);
    SharedMissing(tb, root, v, w);
  }

  lemma AbsentIs(tb: Tables, root: Frame, va: bv64, k: nat)
    requires k == PageNo(va)
    ensures Absent(tb, root, k) == Missing(tb, root, va)
  {
    var p, i, j := Locate(va);
    AbsentAt(tb, root, va, p, i, j);
  }

  /** An address of page p, and its slots. */
  lemma LocateSome(p: nat) returns (v: bv64, i: nat, j: nat)
    requires p < 0x800_0000
    ensures Located(v, p, i, j)
  {
    v := SomeAddress(p);
    var q;
    q, i, j := Locate(v);
  }

  /** Whether a page lacks its tables is a matter of its regions. */
  lemma AbsentByRegion(tb: Tables, root: Frame, p: nat, q: nat)
    requires p < 0x800_0000 && q < 0x800_0000
    ensures Giga(p) == Giga(q) ==> (Absent(tb, root, p) == 2 <==> Absent(tb, root, q) == 2)
    ensures Mega(p) == Mega(q) ==> Absent(tb, root, p) == Absent(tb, root, q)
  {
    var v, i, j := LocateSome(p);
    var w, k, l := LocateSome(q);
    AbsentAt(tb, root, v, p, i, j);
    AbsentAt(tb, root, w, q, k, l);
    SharesIs(v, p, i, j, w, q, k, l);
    SharedMissing(tb, root, v, w);
  }

  /** What completing the walk of an address of page k, down to a level, does to every page. */
  lemma GrownAbsent(tb1: Tables, tb2: Tables, root: Frame, va: bv64, level: nat, k: nat, p: nat)
    requires GrownTo(tb1, tb2, root, va, level) && k == PageNo(va) && p < 0x800_0000
    ensures Absent(tb2, root, p) == Left(Absent(tb1, root, p), Giga(p) == Giga(k), Mega(p) == Mega(k), level)
  {
    var q, a, b := Locate(va);
    var v, i, j := LocateSome(p);
    AbsentAt(tb1, root, v, p, i, j);
    AbsentAt(tb2, root, v, p, i, j);
    SharesIs(v, p, i, j, va, q, a, b);
    assert Look(Growth);
  }

  // ---------------------------------------------------------------- what a range needs

  /** The gigabyte regions of the pages first to k - 1 that lack their table of level 2. */
  ghost function Gigas(tb: Tables, root: Frame, first: nat, k: nat): set<nat>
    decreases k
  {
    if k <= first then {}
    else Gigas(tb, root, first, k - 1) + if Absent(tb, root, k - 1) == 2 then {Giga(k - 1)} else {}
  }

  lemma {:induction false} GigasAre(tb: Tables, root: Frame, first: nat, k: nat, x: nat)
    ensures x in Gigas(tb, root, first, k) <==> exists p :: first <= p < k && Absent(tb, root, p) == 2 && Giga(p) == x
    decreases k
  {
    if k <= first {
    } else {
      GigasAre(tb, root, first, k - 1, x);
      if x in Gigas(tb, root, first, k - 1) {
        var p :| first <= p < k - 1 && Absent(tb, root, p) == 2 && Giga(p) == x;
        assert first <= p < k && Absent(tb, root, p) == 2 && Giga(p) == x;
      }
    }
  }

  /** The 2-megabyte regions of the pages first to k - 1 that lack their table of level 3. */
  ghost function Megas(tb: Tables, root: Frame, first: nat, k: nat): set<nat>
    decreases k
  {
    if k <= first then {}
    else Megas(tb, root, first, k - 1) + if Absent(tb, root, k - 1) >= 1 then {Mega(k - 1)} else {}
  }

  lemma {:induction false} MegasAre(tb: Tables, root: Frame, first: nat, k: nat, x: nat)
    ensures x in Megas(tb, root, first, k) <==> exists p :: first <= p < k && Absent(tb, root, p) >= 1 && Mega(p) == x
    decreases k
  {
    if k <= first {
    } else {
      MegasAre(tb, root, first, k - 1, x);
      if x in Megas(tb, root, first, k - 1) {
        var p :| first <= p < k - 1 && Absent(tb, root, p) >= 1 && Mega(p) == x;
        assert first <= p < k && Absent(tb, root, p) >= 1 && Mega(p) == x;
      }
    }
  }

  ghost predicate Costs(tb: Tables, root: Frame, first: nat, k: nat, n: nat) {
    forall z {:trigger Look(z)} :: Look(z) && z == Payment ==> n == |Gigas(tb, root, first, k)| + |Megas(tb, root, first, k)|
  }

  /** The tables that mapping the pages first to k - 1 has to create: one for each region that lacks its
      own. What it is made of is kept folded. */
  ghost function Cost(tb: Tables, root: Frame, first: nat, k: nat): nat {
    assert Costs(tb, root, first, k, |Gigas(tb, root, first, k)| + |Megas(tb, root, first, k)|);
    var n: nat :| Costs(tb, root, first, k, n); n
  }

  lemma CostIs(tb: Tables, root: Frame, first: nat, k: nat)
    ensures Cost(tb, root, first, k) == |Gigas(tb, root, first, k)| + |Megas(tb, root, first, k)|
  {
    assert Costs(tb, root, first, k, |Gigas(tb, root, first, k)| + |Megas(tb, root, first, k)|);
    assert Look(Payment);
  }

  lemma NoCost(tb: Tables, root: Frame, first: nat, k: nat)
    requires k <= first
    ensures Cost(tb, root, first, k) == 0
  {
    CostIs(tb, root, first, k);
  }

  lemma RegionsAscend(p: nat, q: nat)
    requires p <= q
    ensures Giga(p) <= Giga(q) && Giga(q) <= Giga(q + 1) && Mega(p) <= Mega(q) && Mega(q) <= Mega(q + 1)
  {
  }

  lemma GigaSeen(tb: Tables, root: Frame, first: nat, k: nat)
    requires first <= k < 0x800_0000 && Absent(tb, root, k) == 2
    ensures Giga(k) in Gigas(tb, root, first, k) <==> k > first && Giga(k) == Giga(k - 1)
  {
    GigasAre(tb, root, first, k, Giga(k));
    if k > first && Giga(k) == Giga(k - 1) {
      AbsentByRegion(tb, root, k - 1, k);
    } else {
      forall p | first <= p < k ensures Giga(p) != Giga(k) { RegionsAscend(p, k - 1); }
    }
  }

  lemma GigasStep(tb: Tables, root: Frame, first: nat, k: nat)
    requires first <= k < 0x800_0000
    ensures |Gigas(tb, root, first, k + 1)| == |Gigas(tb, root, first, k)|
            + if Absent(tb, root, k) == 2 && (k == first || Giga(k) != Giga(k - 1)) then 1 else 0
  {
    if Absent(tb, root, k) == 2 {
      GigaSeen(tb, root, first, k);
      OneAdded(Gigas(tb, root, first, k), Giga(k));
    }
  }

  lemma MegaSeen(tb: Tables, root: Frame, first: nat, k: nat)
    requires first <= k < 0x800_0000 && Absent(tb, root, k) >= 1
    ensures Mega(k) in Megas(tb, root, first, k) <==> k > first && Mega(k) == Mega(k - 1)
  {
    MegasAre(tb, root, first, k, Mega(k));
    if k > first && Mega(k) == Mega(k - 1) {
      AbsentByRegion(tb, root, k - 1, k);
    } else {
      forall p | first <= p < k ensures Mega(p) != Mega(k) { RegionsAscend(p, k - 1); }
    }
  }

  lemma MegasStep(tb: Tables, root: Frame, first: nat, k: nat)
    requires first <= k < 0x800_0000
    ensures |Megas(tb, root, first, k + 1)| == |Megas(tb, root, first, k)|
            + if Absent(tb, root, k) >= 1 && (k == first || Mega(k) != Mega(k - 1)) then 1 else 0
  {
    if Absent(tb, root, k) >= 1 {
      MegaSeen(tb, root, first, k);
      OneAdded(Megas(tb, root, first, k), Mega(k));
    }
  }

  lemma OneAdded(s: set<nat>, x: nat)
    ensures |s + {x}| == |s| + if x in s then 0 else 1
  {
    if x in s { assert s + {x} == s; }
  }

  /** One page more costs one table for each of its regions that is new to the range and lacks it. */
  lemma CostStep(tb: Tables, root: Frame, first: nat, k: nat)
    requires first <= k < 0x800_0000
    ensures Cost(tb, root, first, k + 1) == Cost(tb, root, first, k)
            + (if Absent(tb, root, k) == 2 && (k == first || Giga(k) != Giga(k - 1)) then 1 else 0)
            + (if Absent(tb, root, k) >= 1 && (k == first || Mega(k) != Mega(k - 1)) then 1 else 0)
  {
    var j := k + 1;
    CostIs(tb, root, first, k);
    CostIs(tb, root, first, j);
    GigasStep(tb, root, first, k);
    MegasStep(tb, root, first, k);
    assert Cost(tb, root, first, k) == |Gigas(tb, root, first, k)| + |Megas(tb, root, first, k)|;
    assert Cost(tb, root, first, j) == |Gigas(tb, root, first, j)| + |Megas(tb, root, first, j)|;
  }

  // ---------------------------------------------------------------- the state of a mapping loop

  /** The pages first to k - 1 reach the 2-megabyte, or the gigabyte, region of page p. */
  predicate ReachMega(first: nat, k: nat, p: nat) { k > first && Mega(first) <= Mega(p) <= Mega(k - 1) }

  predicate ReachGiga(first: nat, k: nat, p: nat) { k > first && Giga(first) <= Giga(p) <= Giga(k - 1) }

  lemma ReachStep(first: nat, k: nat, p: nat)
    requires first <= k
    ensures ReachMega(first, k + 1, p) <==> ReachMega(first, k, p) || Mega(p) == Mega(k)
    ensures ReachGiga(first, k + 1, p) <==> ReachGiga(first, k, p) || Giga(p) == Giga(k)
  {
    RegionsAscend(first, k);
    if k > first {
      RegionsAscend(first, k - 1);
      NextRegion(k - 1);
    }
  }

  lemma NextRegion(q: nat)
    ensures Giga(q + 1) <= Giga(q) + 1 && Mega(q + 1) <= Mega(q) + 1
  {
  }

  /** Tables missing for page p once the pages first to k - 1 are mapped, where m were missing. */
  function Rest(m: nat, first: nat, k: nat, p: nat): nat {
    if ReachMega(first, k, p) then 0 else if ReachGiga(first, k, p) && m >= 2 then 1 else m
  }

  /** From tb0 to tb the tables of the pages first to k - 1 have been created, and nothing else. */
  ghost predicate Covers(tb0: Tables, tb: Tables, root: Frame, first: nat, k: nat) {
    forall p :: 0 <= p < 0x800_0000 ==> Absent(tb, root, p) == Rest(Absent(tb0, root, p), first, k, p)
  }

  lemma CoversNothing(tb: Tables, root: Frame, first: nat)
    ensures Covers(tb, tb, root, first, first) && Cost(tb, root, first, first) == 0
  {
    NoCost(tb, root, first, first);
  }

  lemma MegaInGiga(p: nat, q: nat)
    ensures Mega(p) == Mega(q) ==> Giga(p) == Giga(q)
    ensures Mega(p) <= Mega(q) ==> Giga(p) <= Giga(q)
  {
    assert Giga(p) == Mega(p) / 512 && Giga(q) == Mega(q) / 512;
  }

  lemma RestStep(m: nat, first: nat, k: nat, p: nat)
    requires m <= 2 && first <= k
    ensures Rest(m, first, k + 1, p) == Left(Rest(m, first, k, p), Giga(p) == Giga(k), Mega(p) == Mega(k), 3)
  {
    ReachStep(first, k, p);
    MegaInGiga(p, k);
  }

  /** One page more. */
  lemma CoversMore(tb0: Tables, tb1: Tables, tb2: Tables, root: Frame, first: nat, k: nat, va: bv64)
    requires Covers(tb0, tb1, root, first, k) && first <= k && k == PageNo(va) && GrownTo(tb1, tb2, root, va, 3)
    ensures Covers(tb0, tb2, root, first, k + 1)
  {
    forall p | 0 <= p < 0x800_0000
      ensures Absent(tb2, root, p) == Rest(Absent(tb0, root, p), first, k + 1, p) {
      GrownAbsent(tb1, tb2, root, va, 3, k, p);
      RestStep(Absent(tb0, root, p), first, k, p);
    }
  }

  /** The tables the page still lacks are what the range then needs in addition. */
  lemma CoversCost(tb0: Tables, tb1: Tables, root: Frame, first: nat, k: nat)
    requires Covers(tb0, tb1, root, first, k) && first <= k < 0x800_0000
    ensures Cost(tb0, root, first, k + 1) == Cost(tb0, root, first, k) + Absent(tb1, root, k)
  {
    CostStep(tb0, root, first, k);
    RestHere(Absent(tb0, root, k), first, k);
  }

  /** What is left to create for the first page not mapped yet. */
  lemma RestHere(m: nat, first: nat, k: nat)
    requires m <= 2 && first <= k
    ensures Rest(m, first, k, k) == (if m == 2 && (k == first || Giga(k) != Giga(k - 1)) then 1 else 0)
                                    + (if m >= 1 && (k == first || Mega(k) != Mega(k - 1)) then 1 else 0)
  {
    if k > first {
      RegionsAscend(first, k - 1);
      MegaInGiga(k, k - 1);
    }
  }

  lemma {:induction false} CostGrows(tb: Tables, root: Frame, first: nat, j: nat, k: nat)
    requires first <= j <= k <= 0x800_0000
    ensures Cost(tb, root, first, j) <= Cost(tb, root, first, k)
    decreases k
  {
    if j == k {
    } else {
      CostGrows(tb, root, first, j, k - 1);
      CostStep(tb, root, first, k - 1);
    }
  }

  /** The pages first to k - 1 have been mapped with n0 pages to make tables from, and n are left. */
  ghost predicate Paid(tb0: Tables, tb: Tables, root: Frame, first: nat, k: nat, n0: nat, n: nat) {
    first <= k && Covers(tb0, tb, root, first, k) && n + Cost(tb0, root, first, k) == n0
  }

  /** Page k can be mapped exactly when the pages suffice for the range up to it. */
  lemma PayOne(tb0: Tables, tb1: Tables, tb2: Tables, root: Frame, first: nat, k: nat, n0: nat, n1: nat, n2: nat,
               va: bv64, ok: bool)
    requires Paid(tb0, tb1, root, first, k, n0, n1) && k == PageNo(va) && k < 0x800_0000
    requires ok <==> n1 >= Missing(tb1, root, va)
    requires ok ==> n2 == n1 - Missing(tb1, root, va) && GrownTo(tb1, tb2, root, va, 3)
    ensures ok <==> Cost(tb0, root, first, k + 1) <= n0
    ensures ok ==> Paid(tb0, tb2, root, first, k + 1, n0, n2)
  {
    CoversCost(tb0, tb1, root, first, k);
    AbsentIs(tb1, root, va, k);
    if ok { CoversMore(tb0, tb1, tb2, root, first, k, va); }
  }

  // ---------------------------------------------------------------- an empty tree

  /** The tables below the root that the pages first to k - 1 take: the regions they touch. */
  function EmptyCost(first: nat, k: nat): nat {
    if k <= first then 0 else Giga(k - 1) - Giga(first) + 1 + (Mega(k - 1) - Mega(first) + 1)
  }

  lemma AllAbsent(tb: Tables, root: Frame, p: nat)
    requires EmptyTree(tb, root) && p < 0x800_0000
    ensures Absent(tb, root, p) == 2
  {
    assert Look(Emptiness);
  }

  lemma EmptyCostStep(first: nat, k: nat)
    requires first <= k
    ensures EmptyCost(first, k + 1) == EmptyCost(first, k)
            + (if k == first || Giga(k) != Giga(k - 1) then 1 else 0)
            + (if k == first || Mega(k) != Mega(k - 1) then 1 else 0)
  {
    if k > first {
      RegionsAscend(first, k - 1);
      NextRegion(k - 1);
    }
  }

  lemma {:induction false} CostOfEmpty(tb: Tables, root: Frame, first: nat, k: nat)
    requires k <= 0x800_0000 && EmptyTree(tb, root)
    ensures Cost(tb, root, first, k) == EmptyCost(first, k)
    decreases k
  {
    if k <= first {
      NoCost(tb, root, first, k);
    } else {
      CostOfEmpty(tb, root, first, k - 1);
      CostStep(tb, root, first, k - 1);
      AllAbsent(tb, root, k - 1);
      EmptyCostStep(first, k - 1);
    }
  }

  /** A tree with no table below the root, folded. */
  ghost predicate EmptyTree(tb: Tables, root: Frame) {
    forall z {:trigger Look(z)} :: Look(z) && z == Emptiness ==> forall p :: 0 <= p < 0x800_0000 ==> Absent(tb, root, p) == 2
  }

  lemma EmptyTreeIf(tb: Tables, root: Frame)
    requires forall v :: Missing(tb, root, v) == 2
    ensures EmptyTree(tb, root)
  {
    forall p | 0 <= p < 0x800_0000 ensures Absent(tb, root, p) == 2 {
      var v, i, j := LocateSome(p);
      AbsentAt(tb, root, v, p, i, j);
    }
  }

  /** From page k on no page has all of its tables. */
  ghost predicate Barren(tb: Tables, root: Frame, k: nat) {
    forall p :: k <= p < 0x800_0000 ==> Absent(tb, root, p) >= 1
  }

  /** In a tree that was empty, where a page cannot be mapped, no later one has its tables either. */
  lemma BarrenFrom(tb0: Tables, tb1: Tables, tb2: Tables, root: Frame, first: nat, k: nat, va: bv64, level: nat)
    requires Covers(tb0, tb1, root, first, k) && first <= k && k == PageNo(va)
    requires EmptyTree(tb0, root)
    requires Missing(tb1, root, va) >= 1 && level < 3 && GrownTo(tb1, tb2, root, va, level)
    ensures Barren(tb2, root, k)
  {
    assert Look(Emptiness);
    AbsentIs(tb1, root, va, k);
    forall p | k <= p < 0x800_0000 ensures Absent(tb2, root, p) >= 1 {
      GrownAbsent(tb1, tb2, root, va, level, k, p);
    }
  }

  lemma StaysBarren(tb1: Tables, tb2: Tables, root: Frame, k: nat, va: bv64, level: nat)
    requires Barren(tb1, root, k) && k == PageNo(va) && level < 3 && GrownTo(tb1, tb2, root, va, level)
    ensures Missing(tb1, root, va) >= 1 && Barren(tb2, root, k + 1)
  {
    AbsentIs(tb1, root, va, k);
    forall p | k <= p < 0x800_0000 ensures Absent(tb2, root, p) >= 1 {
      GrownAbsent(tb1, tb2, root, va, level, k, p);
    }
  }

  /** The pages first to k - 1 have been tried, with n0 pages for tables of which n are left: they have
      sufficed so far, or they are used up and no page from k on has its tables. Folded. */
  ghost predicate Tried(tb0: Tables, tb: Tables, root: Frame, first: nat, k: nat, n0: nat, n: nat) {
    forall z {:trigger Look(z)} :: Look(z) && z == Trial ==>
      first <= k && (Paid(tb0, tb, root, first, k, n0, n) || (n == 0 && Barren(tb, root, k) && Cost(tb0, root, first, k) > n0))
  }

  /** Trying page k succeeds exactly when the pages suffice for the range up to it. */
  lemma TryNext(tb0: Tables, tb1: Tables, tb2: Tables, root: Frame, first: nat, k: nat, n0: nat, n1: nat, n2: nat,
                va: bv64, ok: bool)
    requires EmptyTree(tb0, root) && Tried(tb0, tb1, root, first, k, n0, n1) && k == PageNo(va) && k < 0x7FF_FFFF
    requires ok <==> n1 >= Missing(tb1, root, va)
    requires n2 == if ok then n1 - Missing(tb1, root, va) else 0
    requires if ok then GrownTo(tb1, tb2, root, va, 3) else GrownTo(tb1, tb2, root, va, 1) || GrownTo(tb1, tb2, root, va, 2)
    ensures first <= k && (ok <==> Cost(tb0, root, first, k + 1) <= n0)
    ensures Tried(tb0, tb2, root, first, k + 1, n0, n2)
  {
    assert Look(Trial);
    if Paid(tb0, tb1, root, first, k, n0, n1) {
      TryPaid(tb0, tb1, tb2, root, first, k, n0, n1, n2, va, ok);
    } else {
      TryDry(tb0, tb1, tb2, root, first, k, n0, n2, va);
    }
  }

  lemma TryPaid(tb0: Tables, tb1: Tables, tb2: Tables, root: Frame, first: nat, k: nat, n0: nat, n1: nat, n2: nat,
                va: bv64, ok: bool)
    requires EmptyTree(tb0, root) && Paid(tb0, tb1, root, first, k, n0, n1) && k == PageNo(va) && k < 0x7FF_FFFF
    requires ok <==> n1 >= Missing(tb1, root, va)
    requires n2 == if ok then n1 - Missing(tb1, root, va) else 0
    requires if ok then GrownTo(tb1, tb2, root, va, 3) else GrownTo(tb1, tb2, root, va, 1) || GrownTo(tb1, tb2, root, va, 2)
    ensures ok <==> Cost(tb0, root, first, k + 1) <= n0
    ensures Tried(tb0, tb2, root, first, k + 1, n0, n2)
  {
    PayOne(tb0, tb1, tb2, root, first, k, n0, n1, n2, va, ok);
    if !ok {
      BarrenFrom(tb0, tb1, tb2, root, first, k, va, if GrownTo(tb1, tb2, root, va, 1) then 1 else 2);
    }
  }

  lemma TryDry(tb0: Tables, tb1: Tables, tb2: Tables, root: Frame, first: nat, k: nat, n0: nat, n2: nat, va: bv64)
    requires first <= k && Barren(tb1, root, k) && Cost(tb0, root, first, k) > n0 && k == PageNo(va) && k < 0x7FF_FFFF
    requires Missing(tb1, root, va) >= 1 ==>
               n2 == 0 && (GrownTo(tb1, tb2, root, va, 1) || GrownTo(tb1, tb2, root, va, 2))
    ensures Missing(tb1, root, va) >= 1 && Cost(tb0, root, first, k + 1) > n0
    ensures Tried(tb0, tb2, root, first, k + 1, n0, n2)
  {
    CostGrows(tb0, root, first, k, k + 1);
    AbsentIs(tb1, root, va, k);
    StaysBarren(tb1, tb2, root, k, va, if GrownTo(tb1, tb2, root, va, 1) then 1 else 2);
  }

  lemma TryFirst(tb: Tables, root: Frame, first: nat, n0: nat)
    ensures Tried(tb, tb, root, first, first, n0, n0)
  {
    CoversNothing(tb, root, first);
  }
}
