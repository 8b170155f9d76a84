/** Power-of-two address arithmetic: block sizes, alignment and the XOR that finds a buddy. */
module Dyadic {

  const PAGE_SIZE: nat := 4096

  function Pow2(k: nat): (r: nat)
    ensures r > 0
  {
    if k == 0 then 1 else 2 * Pow2(k - 1)
  }

  /** The least order, from i up, with 2^order of at least the size. */
  function OrderFrom(size: nat, i: nat): (k: nat)
    ensures i <= k && size <= Pow2(k) && forall j :: i <= j < k ==> Pow2(j) < size
    decreases if size > Pow2(i) then size - Pow2(i) else 0
  {
    if size <= Pow2(i) then i else OrderFrom(size, i + 1)
  }

  /** Bytes in a block of 2^k pages: PAGE_SIZE << k. */
  function Size(k: nat): (r: nat)
    ensures r > 0
  {
    PAGE_SIZE * Pow2(k)
  }

  ghost predicate Aligned(a: nat, k: nat) {
    a % Size(k) == 0
  }

  /** Bitwise exclusive or of two unsigned words, bit by bit from the least significant one. */
  function Xor(a: nat, b: nat): nat
    decreases a + b
  {
    if a == 0 && b == 0 then 0
    else (if a % 2 != b % 2 then 1 else 0) + 2 * Xor(a / 2, b / 2)
  }

  /** The address get_buddy_pfn computes: (PAGE_SIZE << k) ^ page. */
  function Buddy(page: nat, k: nat): nat {
    Xor(Size(k), page)
  }

  // ---------------------------------------------------------------- arithmetic

  lemma MulLe(x: nat, y: nat, s: nat)
    requires x <= y
    ensures x * s <= y * s
  {
  }

  lemma MulStrict(x: nat, y: nat, s: nat)
    requires x * s < y * s
    ensures x < y
  {
    if y <= x { MulLe(y, x, s); assert false; }
  }

  lemma DivUnique(a: nat, d: nat, q: nat, r: nat)
    requires d > 0 && a == q * d + r && r < d
    ensures a / d == q && a % d == r
  {
    var p := a / d;
    assert p * d <= a < p * d + d;
    assert (p + 1) * d == p * d + d && (q + 1) * d == q * d + d;
    MulStrict(p, q + 1, d);
    MulStrict(q, p + 1, d);
  }

  /** The next multiple up and the one below have neighbouring quotients. */
  lemma NextMultiple(a: nat, s: nat)
    requires s > 0 && a % s == 0
    ensures (a + s) % s == 0 && (a + s) / s == a / s + 1
  {
    var q := a / s;
    assert (q + 1) * s == q * s + s;
    DivUnique(a + s, s, q + 1, 0);
  }

  lemma PreviousMultiple(a: nat, s: nat)
    requires s > 0 && a % s == 0 && s <= a
    ensures (a - s) % s == 0 && (a - s) / s == a / s - 1
  {
    var q := a / s;
    assert a == q * s;
    MulStrict(0, q, s);
    assert (q - 1) * s == q * s - s;
    DivUnique(a - s, s, q - 1, 0);
  }

  lemma HalfTimes(h: nat, r: nat, s: nat)
    ensures (2 * h + r) * s == h * (2 * s) + r * s
  {
  }

  /** The remainder by 2s tells the parity of the quotient by s. */
  lemma PairIndex(a: nat, s: nat)
    requires s > 0 && a % s == 0
    ensures (a / s) % 2 == 0 <==> a % (2 * s) == 0
    ensures (a / s) % 2 != 0 ==> a % (2 * s) == s
  {
    var q := a / s;
    var h, r := q / 2, q % 2;
    assert a == q * s;
    HalfTimes(h, r, s);
    if r == 0 {
      DivUnique(a, 2 * s, h, 0);
    } else {
      DivUnique(a, 2 * s, h, s);
    }
  }

  lemma MultipleDown(a: nat, s: nat, c: nat)
    requires s > 0 && c > 0 && a % (c * s) == 0
    ensures a % s == 0
  {
    var q := a / (c * s);
    assert a == q * (c * s) == (q * c) * s;
    DivUnique(a, s, q * c, 0);
  }

  lemma MultiplesNest(a: nat, s: nat, b: nat, c: nat)
    requires s > 0 && c > 0 && a % s == 0 && b % s == 0
    requires a < b + c * s && b < a + s
    ensures b <= a && a + s <= b + c * s
  {
    var p, q := a / s, b / s;
    assert a == p * s && b == q * s;
    assert (q + c) * s == b + c * s;
    assert (p + 1) * s == a + s;
    MulStrict(p, q + c, s);
    MulStrict(q, p + 1, s);
    MulLe(q, p, s);
    MulLe(p + 1, q + c, s);
  }

  lemma SizeDouble(k: nat)
    ensures Size(k + 1) == 2 * Size(k)
  {
  }

  /** Size(k) == 2^(k+12). */
  lemma SizeIsPow2(k: nat)
    ensures Size(k) == Pow2(k + 12)
  {
    if k == 0 {
      assert Pow2(12) == 2 * Pow2(11) == 4 * Pow2(10) == 8 * Pow2(9) == 16 * Pow2(8) == 32 * Pow2(7) == 64 * Pow2(6);
      assert Pow2(6) == 2 * Pow2(5) == 4 * Pow2(4) == 8 * Pow2(3) == 16 * Pow2(2) == 32 * Pow2(1) == 64;
    } else {
      SizeIsPow2(k - 1);
    }
  }

  // ---------------------------------------------------------------- XOR

  lemma XorZero(a: nat)
    ensures Xor(0, a) == a
  {
    if a > 0 { XorZero(a / 2); }
  }

  lemma HalveQuotient(a: nat, p: nat)
    requires p > 0
    ensures (a / 2) / p == a / (2 * p)
  {
    var q, r := (a / 2) / p, (a / 2) % p;
    assert a == q * (2 * p) + (2 * r + a % 2) by {
      assert a / 2 == q * p + r;
    }
    DivUnique(a, 2 * p, q, 2 * r + a % 2);
  }

  /** Exclusive or with a single bit adds that bit when it is clear and removes it when it is set. */
  lemma {:induction false} XorBit(a: nat, k: nat)
    ensures Xor(Pow2(k), a) == if (a / Pow2(k)) % 2 == 0 then a + Pow2(k) else a - Pow2(k)
    ensures (a / Pow2(k)) % 2 != 0 ==> Pow2(k) <= a
    decreases k
  {
    if k == 0 {
      XorZero(a / 2);
    } else {
      var p := Pow2(k - 1);
      HalveQuotient(a, p);
      XorBit(a / 2, k - 1);
      assert Pow2(k) == 2 * p;
    }
  }

  /** The buddy is one block up when the block's index is even and one block down when it is odd. */
  lemma BuddyCases(page: nat, k: nat)
    ensures Buddy(page, k) == if (page / Size(k)) % 2 == 0 then page + Size(k) else page - Size(k)
    ensures (page / Size(k)) % 2 != 0 ==> Size(k) <= page
  {
    SizeIsPow2(k);
    XorBit(page, k + 12);
  }

  /** Splitting by XOR yields the upper half exactly when the address is a multiple of the
      whole block: the alignment that the base of the managed range must have. */
  lemma SplitNeedsAlignment(page: nat, k: nat)
    requires Aligned(page, k)
    ensures Buddy(page, k) == page + Size(k) <==> Aligned(page, k + 1)
  {
    BuddyCases(page, k);
    PairIndex(page, Size(k));
  }

  /** The lower half of an aligned block is aligned, and XOR finds the upper half and comes back. */
  lemma Halves(page: nat, k: nat)
    requires Aligned(page, k + 1)
    ensures Aligned(page, k) && Aligned(page + Size(k), k)
    ensures Buddy(page, k) == page + Size(k) && Buddy(page + Size(k), k) == page
  {
    MultipleDown(page, Size(k), 2);
    SplitNeedsAlignment(page, k);
    PairIndex(page, Size(k));
    BuddyBack(page, k);
  }

  /** The upper half's buddy is the lower half. */
  lemma BuddyBack(page: nat, k: nat)
    requires Aligned(page, k) && (page / Size(k)) % 2 == 0
    ensures Aligned(page + Size(k), k) && Buddy(page + Size(k), k) == page
  {
    NextMultiple(page, Size(k));
    BuddyCases(page + Size(k), k);
  }

  /** An aligned block that is not aligned at the next order is the upper half of one that is. */
  lemma UpperHalf(page: nat, k: nat)
    requires Aligned(page, k) && !Aligned(page, k + 1)
    ensures Size(k) <= page && Aligned(page - Size(k), k + 1) && Buddy(page, k) == page - Size(k)
  {
    PairIndex(page, Size(k));
    BuddyCases(page, k);
    PreviousMultiple(page, Size(k));
    PairIndex(page - Size(k), Size(k));
  }

  /** An aligned block and its buddy are the two halves of one aligned block of the next order. */
  lemma BuddyHalves(page: nat, k: nat)
    requires Aligned(page, k)
    ensures var b := Buddy(page, k); var lo := if page < b then page else b;
            && b != page && Aligned(b, k) && Buddy(b, k) == page
            && Aligned(lo, k + 1)
            && (if page < b then b == page + Size(k) else page == b + Size(k))
  {
    if Aligned(page, k + 1) {
      Halves(page, k);
    } else {
      UpperHalf(page, k);
      Halves(page - Size(k), k);
    }
  }

  lemma SizeRatio(k: nat, m: nat) returns (c: nat)
    requires k <= m
    ensures c > 0 && Size(m) == c * Size(k)
    decreases m - k
  {
    if k == m {
      c := 1;
    } else {
      var d := SizeRatio(k, m - 1);
      c := 2 * d;
      assert Size(m) == 2 * Size(m - 1);
      assert 2 * (d * Size(k)) == c * Size(k);
    }
  }

  /** Two aligned blocks are nested or disjoint. */
  lemma Nested(a: nat, k: nat, b: nat, m: nat)
    requires k <= m && Aligned(a, k) && Aligned(b, m)
    requires a < b + Size(m) && b < a + Size(k)
    ensures b <= a && a + Size(k) <= b + Size(m)
  {
    var c := SizeRatio(k, m);
    MultipleDown(b, Size(k), c);
    MultiplesNest(a, Size(k), b, c);
  }
}
