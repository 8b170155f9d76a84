/** The number printers of printf.c, with C's truncating division and the widths of int and u64. */
module Printf {

  const INT_MAX: int := 0x7FFF_FFFF

  predicate IsInt(d: int) { -0x8000_0000 <= d <= INT_MAX }

  /** C's / and %: they truncate toward zero. */
  function Quot(a: int, b: int): int
    requires b > 0
  {
    if a >= 0 then a / b else -((-a) / b)
  }

  function Rem(a: int, b: int): (r: int)
    requires b > 0
    ensures a == b * Quot(a, b) + r && -b < r < b && (a >= 0 ==> r >= 0) && (a <= 0 ==> r <= 0)
  {
    if a >= 0 then a % b else -((-a) % b)
  }

  /** A product kept to 32 bits, as the multiplication instruction does. */
  function Wrap32(a: int): (r: int)
    ensures IsInt(r) && (IsInt(a) ==> r == a)
  {
    (a + 0x8000_0000) % 0x1_0000_0000 - 0x8000_0000
  }

  function Pow10(k: nat): (r: nat)
    ensures r > 0
  {
    if k == 0 then 1 else 10 * Pow10(k - 1)
  }

  /** The number of decimal digits, 0 for 0. */
  function Digits(d: int): (n: nat)
    decreases if d < 0 then -d else d
  {
    if d == 0 then 0 else 1 + Digits(Quot(d, 10))
  }

  // ---------------------------------------------------------------- int_chars

  method IntChars(d: int) returns (size: int)
    requires IsInt(d)
    ensures size == Digits(Wrap32(d * 10)) - 2
  {
    var i := Wrap32(d * 10);
    size := 0;
    while i != 0
      invariant size + Digits(i) == Digits(Wrap32(d * 10))
      decreases if i < 0 then -i else i
    {
      i := Quot(i, 10);
      size := size + 1;
    }
    size := size - 2;
  }

  lemma {:induction false} DigitsRange(d: nat, k: nat)
    ensures Digits(d) <= k <==> d < Pow10(k)
    decreases k
  {
    if k == 0 {
    } else if d > 0 {
      DigitsRange(d / 10, k - 1);
    }
  }

  lemma {:induction false} DigitsNegative(d: int)
    ensures Digits(-d) == Digits(d)
    decreases if d < 0 then -d else d
  {
    if d == 0 {
    } else {
      DigitsNegative(Quot(d, 10));
    }
  }

  lemma DigitsTimesTen(d: nat)
    requires d > 0
    ensures Digits(d * 10) == Digits(d) + 1
  {
    assert Quot(d * 10, 10) == d;
  }

  lemma TenDigits()
    ensures Pow10(9) == 1_000_000_000 && Pow10(10) == 10_000_000_000
  {
    assert Pow10(3) == 1000 && Pow10(6) == 1000 * Pow10(3) && Pow10(9) == 1000 * Pow10(6);
  }

  lemma NineDigits()
    ensures Pow10(8) == 100_000_000
  {
    assert Pow10(4) == 10_000 && Pow10(8) == 10_000 * Pow10(4);
  }

  /** The positive numbers whose tenfold, kept to 32 bits, still has one digit more. */
  predicate RightWidth(d: int) {
    1 <= d <= 329_496_729 || 529_496_730 <= d <= 758_993_459 || 958_993_460 <= d <= 999_999_999
  }

  lemma TenDigitWrap(d: int)
    requires 214_748_365 <= d <= 999_999_999
    ensures Wrap32(d * 10) >= 1_000_000_000 || Wrap32(d * 10) <= -1_000_000_000 <==> RightWidth(d)
  {
  }

  /** The width int_chars computes for a positive int is one less than the number of digits, which is
      what d_to_s needs, exactly for these. The program relies on the numbers up to 214748364 only,
      since above that the product overflows. */
  lemma WidthRight(d: int)
    requires 1 <= d <= INT_MAX
    ensures Digits(Wrap32(d * 10)) - 2 == Digits(d) - 1 <==> RightWidth(d)
  {
    var w := Wrap32(d * 10);
    TenDigits();
    NineDigits();
    if d <= 214_748_364 {
      DigitsTimesTen(d);
    } else {
      DigitsRange(d, 8);
      DigitsRange(d, 9);
      DigitsRange(d, 10);
      MagnitudeDigits(w);
      if d <= 999_999_999 { TenDigitWrap(d); }
    }
  }

  /** An int has ten digits from 10^9 on, and never more. */
  lemma MagnitudeDigits(w: int)
    requires IsInt(w)
    ensures Digits(w) <= 10 && (Digits(w) == 10 <==> w >= 1_000_000_000 || w <= -1_000_000_000)
  {
    TenDigits();
    var a := if w < 0 then -w else w;
    if w < 0 { DigitsNegative(w); }
    DigitsRange(a, 9);
    DigitsRange(a, 10);
  }

  /** The width as vprintf passes it on: converted to char, which is unsigned on this processor. */
  function AsChar(size: int): (sz: nat)
    ensures sz < 256 && (0 <= size < 256 ==> sz == size)
  {
    size % 256
  }

  /** The highest position d_to_s writes lies inside the buffer of 128 exactly when the wrapped
      product has at least two digits. A smaller one makes the width negative, and the char 254 or
      255: the text goes far behind the buffer. */
  lemma InsideBuffer(d: int)
    requires IsInt(d)
    ensures AsChar(Digits(Wrap32(d * 10)) - 2) + 2 < 128 <==> Digits(Wrap32(d * 10)) >= 2
    ensures Digits(Wrap32(d * 10)) >= 2 ==> AsChar(Digits(Wrap32(d * 10)) - 2) == Digits(Wrap32(d * 10)) - 2
  {
    MagnitudeDigits(Wrap32(d * 10));
  }

  /** Printing 0 is such a case. */
  lemma ZeroGoesOutside()
    ensures AsChar(Digits(Wrap32(0 * 10)) - 2) == 254
  {
  }

  // ---------------------------------------------------------------- reading digits back

  /** The number the characters stand for, each counting by its distance from '0'. */
  function Value(s: seq<char>): int {
    if s == [] then 0 else 10 * Value(s[..|s| - 1]) + (s[|s| - 1] as int - '0' as int)
  }

  predicate AllDigits(s: seq<char>) {
    forall i :: 0 <= i < |s| ==> '0' <= s[i] <= '9'
  }

  // ---------------------------------------------------------------- d_to_s

  function DigitChar(r: int): char
    requires -10 < r < 10
  {
    (r + '0' as int) as char
  }

  /** The last k decimal digits of d. */
  function LowDigits(d: int, k: nat): (s: string)
    ensures |s| == k
    decreases k
  {
    if k == 0 then "" else LowDigits(Quot(d, 10), k - 1) + [DigitChar(Rem(d, 10))]
  }

  method DToS(i: int, c: array<char>, sz: nat) returns (start: nat)
    requires c.Length > sz + 2
    modifies c
    ensures start == 1 && c[sz + 2] == '\0'
    ensures c[1..sz + 2] == LowDigits(i, sz + 1)
    ensures c[0] == old(c[0]) && c[sz + 3..] == old(c[sz + 3..])
  {
    var index, d := sz + 2, i;
    c[index] := '\0';
    index := index - 1;
    while index != 0
      invariant 0 <= index < sz + 2 && c[sz + 2] == '\0'
      invariant LowDigits(d, index) + c[index + 1..sz + 2] == LowDigits(i, sz + 1)
      invariant c[0] == old(c[0]) && c[sz + 3..] == old(c[sz + 3..])
    {
      ghost var was := c[index + 1..sz + 2];
      c[index] := DigitChar(Rem(d, 10));
      assert c[index..sz + 2] == [DigitChar(Rem(d, 10))] + was;
      d := Quot(d, 10);
      index := index - 1;
      assert LowDigits(d, index) + ([DigitChar(c[index + 1] as int - '0' as int)] + was)
          == LowDigits(d, index) + [DigitChar(c[index + 1] as int - '0' as int)] + was;
    }
    start := index + 1;
  }

  lemma RemUnique(a: nat, b: nat, q: nat, r: nat)
    requires a == b * q + r && r < b
    ensures a % b == r
  {
    var e := a / b - q;
    assert b * e == r - a % b;
    assert e >= 1 ==> b * e >= b;
    assert e <= -1 ==> b * e + b <= 0;
  }

  lemma Distribute(b: nat, p: nat, q: int, r: int)
    requires r < p
    ensures b * (p * q + r) == (b * p) * q + b * r && b * r + b <= b * p
  {
    assert b * (p * q) == (b * p) * q;
    assert b * (p - r - 1) >= 0;
  }

  lemma RemComposes(a: nat, b: nat, p: nat, c: nat, m: nat, q: nat, r: nat)
    requires a == b * c + m && m < b && c == p * q + r && r < p
    ensures b * p > 0 && a % (b * p) == b * r + m
  {
    Distribute(b, p, q, r);
    var n := b * p;
    assert a == n * q + (b * r + m);
    RemUnique(a, n, q, b * r + m);
  }

  /** Dividing by b and then by p, and keeping both remainders, is dividing by b * p. */
  lemma ModSplits(a: nat, b: nat, p: nat)
    requires b > 0 && p > 0
    ensures b * p > 0 && a % (b * p) == b * (a / b % p) + a % b
  {
    RemComposes(a, b, p, a / b, a % b, a / b / p, a / b % p);
  }

  lemma RemSplits(d: int, k: nat)
    ensures Rem(d, Pow10(k + 1)) == 10 * Rem(Quot(d, 10), Pow10(k)) + Rem(d, 10)
  {
    ModSplits(if d < 0 then -d else d, 10, Pow10(k));
  }

  /** Reading back the digits d_to_s writes gives the number modulo the power of ten that fits. */
  lemma {:induction false} LowDigitsValue(d: int, k: nat)
    ensures Value(LowDigits(d, k)) == Rem(d, Pow10(k))
    ensures d >= 0 ==> AllDigits(LowDigits(d, k))
    decreases k
  {
    if k == 0 {
    } else {
      LowDigitsValue(Quot(d, 10), k - 1);
      RemSplits(d, k - 1);
      var s := LowDigits(d, k);
      assert s[..k - 1] == LowDigits(Quot(d, 10), k - 1);
    }
  }

  /** No digit is lost exactly when there is room for all of them. */
  lemma DecimalRoundTrip(d: nat, k: nat)
    ensures Value(LowDigits(d, k)) == d <==> Digits(d) <= k
  {
    LowDigitsValue(d, k);
    DigitsRange(d, k);
  }

  /** With room for exactly its digits, a number is printed without a leading zero. */
  lemma {:induction false} NoLeadingZero(d: nat)
    requires d > 0
    ensures LowDigits(d, Digits(d))[0] != '0'
    decreases d
  {
    if d < 10 {
    } else {
      NoLeadingZero(d / 10);
    }
  }

  /** What the format option d prints, through the 128-character buffer on the stack; not inside
      when d_to_s would write behind that buffer. The text is the number's decimal numeral exactly for
      the numbers whose width is right: never for 0 or a negative number. */
  method PrintDecimal(d: int) returns (inside: bool, s: string)
    requires IsInt(d)
    ensures inside <==> Digits(Wrap32(d * 10)) >= 2
    ensures inside ==> s == LowDigits(d, Digits(Wrap32(d * 10)) - 1)
    ensures inside && AllDigits(s) && Value(s) == d && |s| == Digits(d) <==> RightWidth(d)
    ensures RightWidth(d) ==> s[0] != '0'
  {
    var buf := new char[128];
    var size := IntChars(d);
    InsideBuffer(d);
    NumeralIff(d);
    var sz := AsChar(size);
    if sz + 2 >= buf.Length {
      return false, "";
    }
    var start := DToS(d, buf, sz);
    s := buf[start..sz + 2];
    inside := true;
  }

  /** When the digits that fit the computed width are the number's numeral. */
  lemma NumeralIff(d: int)
    requires IsInt(d)
    ensures RightWidth(d) ==> Digits(Wrap32(d * 10)) >= 2
    ensures Digits(Wrap32(d * 10)) >= 2 ==>
              var s := LowDigits(d, Digits(Wrap32(d * 10)) - 1);
              && (AllDigits(s) && Value(s) == d && |s| == Digits(d) <==> RightWidth(d))
              && (RightWidth(d) ==> s[0] != '0')
  {
    if d > 0 {
      WidthRight(d);
      DigitsPositive(d);
      DecimalRoundTrip(d, Digits(d));
      LowDigitsValue(d, Digits(d));
      NoLeadingZero(d);
    } else if Digits(Wrap32(d * 10)) >= 2 {
      NotNegative(LowDigits(d, Digits(Wrap32(d * 10)) - 1), d);
    }
  }

  lemma DigitsPositive(d: nat)
    requires d > 0
    ensures Digits(d) >= 1
  {
  }

  /** A text of digits does not stand for a negative number, nor does one of as many digits as 0 has
      for 0 when it is not empty. */
  lemma NotNegative(s: string, d: int)
    requires d <= 0 && |s| >= 1
    ensures !(AllDigits(s) && Value(s) == d && |s| == Digits(d))
  {
    if AllDigits(s) { ValueNotNegative(s); }
  }

  lemma {:induction false} ValueNotNegative(s: string)
    requires AllDigits(s)
    ensures Value(s) >= 0
    decreases |s|
  {
    if s == [] {
    } else {
      ValueNotNegative(s[..|s| - 1]);
    }
  }

  // ---------------------------------------------------------------- x_to_s

  const U64: int := 0x1_0000_0000_0000_0000

  function Pow16(k: nat): (r: nat)
    ensures r > 0
  {
    if k == 0 then 1 else 16 * Pow16(k - 1)
  }

  /** An int stored in a u64. */
  function SignExtended(i: int): (d: nat)
    requires IsInt(i)
    ensures d < U64 && d % 0x1_0000_0000 == i % 0x1_0000_0000
  {
    if i >= 0 then i else i + U64
  }

  function HexChar(r: nat): char
    requires r < 16
  {
    if r < 10 then (r + '0' as int) as char else (r - 10 + 'A' as int) as char
  }

  /** The last k hexadecimal digits of d. */
  function LowHex(d: nat, k: nat): (s: string)
    ensures |s| == k
  {
    if k == 0 then "" else LowHex(d / 16, k - 1) + [HexChar(d % 16)]
  }

  method XToS(i: int, c: array<char>, sz: nat) returns (start: nat)
    requires IsInt(i) && 2 <= sz < c.Length
    modifies c
    ensures start == 0 && c[sz] == '\0'
    ensures c[..sz] == "0x" + LowHex(SignExtended(i), sz - 2)
    ensures c[sz + 1..] == old(c[sz + 1..])
  {
    var index, d: nat := sz, SignExtended(i);
    ghost var all, rest := LowHex(d, sz - 2), c[sz + 1..];
    c[index] := '\0';
    index := index - 1;
    while index > 1
      invariant 1 <= index < sz && c[sz..] == ['\0'] + rest
      invariant LowHex(d, index - 1) + c[index + 1..sz] == all
    {
      ghost var was := c[index + 1..sz];
      var res := d % 16;
      HexStep(d, index - 1, was);
      PutHex(c, index, sz, res);
      d := d / 16;
      index := index - 1;
    }
    c[index] := 'x';
    c[index - 1] := '0';
    assert c[..sz] == [c[0], c[1]] + c[2..sz] && c[sz..][0] == '\0' && c[sz..][1..] == c[sz + 1..];
    start := index - 1;
  }

  method PutHex(c: array<char>, index: nat, sz: nat, res: nat)
    requires index < sz < c.Length && res < 16
    modifies c
    ensures c[index..sz] == [HexChar(res)] + old(c[index + 1..sz]) && c[sz..] == old(c[sz..])
  {
    if res < 10 {
      c[index] := (res + '0' as int) as char;
    } else {
      c[index] := (res - 10 + 'A' as int) as char;
    }
  }

  /** One digit moves from what is left of the number to what has been written. */
  lemma HexStep(d: nat, k: nat, was: string)
    requires k > 0
    ensures LowHex(d, k) + was == LowHex(d / 16, k - 1) + ([HexChar(d % 16)] + was)
  {
    var s, h := LowHex(d / 16, k - 1), HexChar(d % 16);
    assert s + [h] + was == s + ([h] + was);
  }

  function HexDigit(c: char): int {
    if '0' <= c <= '9' then c as int - '0' as int else c as int - 'A' as int + 10
  }

  function HexValue(s: string): int {
    if s == [] then 0 else 16 * HexValue(s[..|s| - 1]) + HexDigit(s[|s| - 1])
  }

  predicate AllHex(s: string) {
    forall i :: 0 <= i < |s| ==> '0' <= s[i] <= '9' || 'A' <= s[i] <= 'F'
  }

  lemma HexSplits(d: nat, q: nat, p: nat)
    requires q > 0 && p == 16 * q
    ensures d % p == 16 * (d / 16 % q) + d % 16
  {
    ModSplits(d, 16, q);
  }

  lemma HexCharDigit(r: nat)
    requires r < 16
    ensures HexDigit(HexChar(r)) == r && AllHex([HexChar(r)])
  {
  }

  lemma HexAppend(s: string, c: char)
    ensures HexValue(s + [c]) == 16 * HexValue(s) + HexDigit(c)
    ensures AllHex(s) && AllHex([c]) ==> AllHex(s + [c])
  {
    assert (s + [c])[..|s|] == s;
  }

  lemma {:induction false} LowHexModulo(d: nat, k: nat, p: nat)
    requires p == Pow16(k)
    ensures HexValue(LowHex(d, k)) == d % p && AllHex(LowHex(d, k))
    decreases k
  {
    if k == 0 {
    } else {
      var q, e, r := Pow16(k - 1), d / 16, d % 16;
      LowHexModulo(e, k - 1, q);
      HexCharDigit(r);
      HexAppend(LowHex(e, k - 1), HexChar(r));
      HexSplits(d, q, p);
    }
  }

  /** Reading back the digits x_to_s writes gives the number modulo the power of sixteen that fits. */
  lemma LowHexValue(d: nat, k: nat)
    ensures HexValue(LowHex(d, k)) == d % Pow16(k) && AllHex(LowHex(d, k))
  {
    LowHexModulo(d, k, Pow16(k));
  }

  /** The option x prints an int modulo 2^32, the option l its sign extension to 64 bits. */
  lemma HexRoundTrip(i: int)
    requires IsInt(i)
    ensures HexValue(LowHex(SignExtended(i), 10 - 2)) == i % 0x1_0000_0000
    ensures HexValue(LowHex(SignExtended(i), 18 - 2)) == i % U64
  {
    var d := SignExtended(i);
    LowHexValue(d, 8);
    LowHexValue(d, 16);
    WordSizes();
    WholeWord(i, d);
  }

  lemma WholeWord(i: int, d: nat)
    requires IsInt(i) && d == SignExtended(i)
    ensures d % U64 == i % U64
  {
  }

  lemma WordSizes()
    ensures Pow16(8) == 0x1_0000_0000 && Pow16(16) == U64
  {
    assert Pow16(4) == 0x1_0000 && Pow16(8) == 0x1_0000 * Pow16(4);
    assert Pow16(12) == 0x1_0000 * Pow16(8) && Pow16(16) == 0x1_0000 * Pow16(12);
  }

  /** What the format options x (8 digits) and l (16 digits) print. */
  method PrintHex(i: int, digits: nat) returns (s: string)
    requires IsInt(i) && (digits == 8 || digits == 16)
    ensures |s| == digits + 2 && s[..2] == "0x" && AllHex(s[2..])
    ensures HexValue(s[2..]) == i % (if digits == 8 then 0x1_0000_0000 else U64)
  {
    var buf := new char[128];
    var start := XToS(i, buf, digits + 2);
    s := buf[start..digits + 2];
    HexRoundTrip(i);
    LowHexValue(SignExtended(i), digits);
    assert s[2..] == LowHex(SignExtended(i), digits);
  }
}
