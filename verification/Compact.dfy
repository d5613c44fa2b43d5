/** The compact form of big numbers (src/bignum.h): eight bits of exponent to the base 256, a sign bit
    and 23 bits of mantissa. */
module Compact {
  import opened Arithmetic
  import opened Radix

  const SIGN := 0x80_0000
  const EXPONENT := 0x100_0000

  function Abs(n: int): nat {
    if n < 0 then -n else n
  }

  // ----- specification -----

  /** BN_num_bytes. */
  function ByteCount(m: nat): nat {
    if m == 0 then 0 else 1 + ByteCount(m / 256)
  }

  /** The bytes of a number together with the bit for its sign. */
  function Exponent(m: nat): nat {
    if m == 0 then 0
    else if m < 128 * Pow(256, ByteCount(m) - 1) then ByteCount(m)
    else ByteCount(m) + 1
  }

  /** The three highest bytes of a number of that many bytes. */
  function Mantissa(m: nat): nat {
    var e := Exponent(m);
    if e <= 3 then Scaled(m, 3 - e) else Cut(m, e - 3)
  }

  /** The three highest bytes of a number, without room for its sign. */
  function TopBytes(m: nat): nat {
    var k := ByteCount(m);
    if k <= 3 then Scaled(m, 3 - k) else Cut(m, k - 3)
  }

  /** k zero bytes are appended. */
  function Scaled(m: nat, k: nat): nat {
    m * Pow(256, k)
  }

  /** k bytes are dropped. */
  function Cut(m: nat, k: nat): nat {
    PowPositive(256, k);
    Quotient(m, Pow(256, k), 0);
    m / Pow(256, k)
  }

  function ToCompact(n: int): nat {
    Mantissa(Abs(n)) + Exponent(Abs(n)) % 256 * EXPONENT + if n < 0 then SIGN else 0
  }

  function Magnitude(e: nat, word: nat): nat {
    if e <= 3 then Cut(word, 3 - e) else Scaled(word, e - 3)
  }

  function FromCompact(w: nat): int {
    var m: int := Magnitude(w / EXPONENT, w % SIGN);
    if w / SIGN % 2 == 1 then -m else m
  }

  // ----- the code -----

  class BigNum {
    var n: int

    constructor (n0: int)
      ensures n == n0
    {
      n := n0;
    }

    /** A word of 32 bits; zero has no sign. */
    method SetCompact(compact: nat)
      requires compact < 0x1_0000_0000
      modifies this
      ensures n == FromCompact(compact)
    {
      var size := compact / EXPONENT;
      var negative := compact / SIGN % 2 == 1;
      var word := compact % SIGN;
      if size <= 3 {
        PowPositive(256, 3 - size);
        word := word / Pow(256, 3 - size);
        n := word;
      } else {
        n := word;
        n := n * Pow(256, size - 3);
      }
      if negative { n := -n; }
    }

    method GetCompact() returns (compact: nat)
      ensures compact == ToCompact(n)
    {
      var m := Abs(n);
      var size := ByteCount(m);
      if size <= 3 { compact := Scaled(m, 3 - size); } else { compact := Cut(m, size - 3); }
      TopBit(m);
      if compact / SIGN % 2 == 1 {
        compact := compact / 256;
        size := size + 1;
      }
      compact := compact + size % 256 * EXPONENT;
      if n < 0 { compact := compact + SIGN; }
    }
  }

  // ----- bounds -----

  lemma {:induction false} ByteBounds(m: nat)
    ensures m < Pow(256, ByteCount(m))
    ensures m > 0 ==> Pow(256, ByteCount(m) - 1) <= m
  {
    if m > 0 {
      ByteBounds(m / 256);
    }
  }

  lemma PowStep(k: nat)
    ensures Pow(256, k + 1) == 256 * Pow(256, k)
  {
  }

  /** A number lies between half the powers around its exponent. */
  lemma ExponentBounds(m: nat)
    requires m > 0
    ensures Exponent(m) > 0 && m < 128 * Pow(256, Exponent(m) - 1)
    ensures Exponent(m) > 1 ==> 128 * Pow(256, Exponent(m) - 2) <= m
  {
    ByteBounds(m);
    var k := ByteCount(m);
    PowStep(k - 1);
    if k > 1 { PowStep(k - 2); }
  }

  /** The exponent is determined by these bounds. */
  lemma ExponentIs(m: nat, e: nat)
    requires e > 0 && m > 0 && m < 128 * Pow(256, e - 1)
    requires e > 1 ==> 128 * Pow(256, e - 2) <= m
    ensures Exponent(m) == e
  {
    ExponentBounds(m);
    var f := Exponent(m);
    if f < e { PowGrows(256, f - 1, e - 2); }
    if f > e { PowGrows(256, e - 1, f - 2); }
  }

  lemma Quotient(n: nat, d: nat, q: nat)
    requires d > 0
    ensures n / d >= q <==> n >= q * d
  {
    assert n == n / d * d + n % d;
    if n / d >= q { Products(q, d, n / d, d); }
    if n / d < q { Products(n / d + 1, d, q, d); }
  }

  lemma QuotientTwice(n: nat, d: nat, k: nat)
    requires d > 0 && k > 0
    ensures k * d > 0 && n / d / k == n / (k * d)
  {
    Products(1, 1, k, d);
    var q, r := n / d, n % d;
    assert n == q * d + r;
    assert q == q / k * k + q % k;
    assert n == q / k * (k * d) + (q % k * d + r);
    Products(q % k + 1, d, k, d);
    QuotientIsUnique(n, k * d, q / k, q % k * d + r);
  }

  lemma SmallTopBit(m: nat, c: nat)
    requires ByteCount(m) <= 3 && c == m * Pow(256, 3 - ByteCount(m))
    ensures c < EXPONENT
    ensures c >= SIGN <==> Exponent(m) == ByteCount(m) + 1
    ensures c / 256 == Mantissa(m) || c < SIGN
    ensures c >= SIGN || c == Mantissa(m)
  {
    ByteBounds(m);
    assert Pow(256, 0) == 1 && Pow(256, 1) == 256 && Pow(256, 2) == 65536 && Pow(256, 3) == 16777216;
    var k := ByteCount(m);
    if k == 0 {
      assert m == 0;
    } else if k == 1 {
      assert c == 65536 * m && Mantissa(m) == if m < 128 then 65536 * m else 256 * m;
    } else if k == 2 {
      assert c == 256 * m && Mantissa(m) == if m < 32768 then 256 * m else m;
    } else {
      assert c == m && Mantissa(m) == if m < SIGN then m else m / 256;
    }
  }

  lemma LargeTopBit(m: nat, c: nat)
    requires ByteCount(m) > 3 && Pow(256, ByteCount(m) - 3) > 0 && c == m / Pow(256, ByteCount(m) - 3)
    ensures c < EXPONENT
    ensures c >= SIGN <==> Exponent(m) == ByteCount(m) + 1
    ensures c >= SIGN ==> c / 256 == Mantissa(m)
    ensures c < SIGN ==> c == Mantissa(m)
  {
    ByteBounds(m);
    var k := ByteCount(m);
    var p := Pow(256, k - 3);
    PowStep(k - 3);
    PowStep(k - 2);
    PowStep(k - 1);
    Quotient(m, p, EXPONENT);
    Quotient(m, p, SIGN);
    QuotientTwice(m, p, 256);
  }

  /** The bit that the code tests is set when the number needs a byte more for its sign. */
  lemma TopBit(m: nat)
    ensures TopBytes(m) / SIGN % 2 == if Exponent(m) == ByteCount(m) then 0 else 1
    ensures Exponent(m) == ByteCount(m) || Exponent(m) == ByteCount(m) + 1
    ensures Mantissa(m) == if Exponent(m) == ByteCount(m) then TopBytes(m) else TopBytes(m) / 256
  {
    var c := TopBytes(m);
    if ByteCount(m) <= 3 { SmallTopBit(m, c); } else { PowPositive(256, ByteCount(m) - 3); LargeTopBit(m, c); }
    SignBit(c);
  }

  lemma SignBit(c: nat)
    requires c < EXPONENT
    ensures c / SIGN % 2 == if c >= SIGN then 1 else 0
  {
  }

  // ----- rounding -----

  /** The exponent fits its byte. */
  predicate Fits(m: nat) {
    Exponent(m) < 256
  }

  lemma MantissaRange(m: nat)
    ensures Mantissa(m) < SIGN
    ensures m > 0 && Exponent(m) > 1 ==> Mantissa(m) >= 0x8000
  {
    if m > 0 {
      ExponentBounds(m);
      var e := Exponent(m);
      assert Pow(256, 0) == 1 && Pow(256, 1) == 256 && Pow(256, 2) == 65536;
      if e > 3 {
        var p := Pow(256, e - 3);
        PowPositive(256, e - 3);
        PowStep(e - 3);
        PowStep(e - 2);
        Quotient(m, p, SIGN);
        Quotient(m, p, 0x8000);
      }
    }
  }

  /** The parts of a compact word. */
  lemma Parts(n: int)
    requires Fits(Abs(n))
    ensures ToCompact(n) / EXPONENT == Exponent(Abs(n)) && ToCompact(n) % SIGN == Mantissa(Abs(n))
    ensures ToCompact(n) / SIGN % 2 == 1 <==> n < 0
    ensures ToCompact(n) < 0x1_0000_0000
  {
    var e, c, s := Exponent(Abs(n)), Mantissa(Abs(n)), if n < 0 then 1 else 0;
    MantissaRange(Abs(n));
    PartsOfWord(e, c, s);
    Composed(n);
  }

  lemma Composed(n: int)
    requires Fits(Abs(n))
    ensures ToCompact(n) == Mantissa(Abs(n)) + Exponent(Abs(n)) * EXPONENT + (if n < 0 then 1 else 0) * SIGN
  {
  }

  lemma PartsOfWord(e: nat, c: nat, s: nat)
    requires e < 256 && c < SIGN && s < 2
    ensures var w := c + e * EXPONENT + s * SIGN;
      w / EXPONENT == e && w % SIGN == c && w / SIGN % 2 == s && w < 0x1_0000_0000
  {
    var w := c + e * EXPONENT + s * SIGN;
    QuotientIsUnique(w, SIGN, 2 * e + s, c);
    QuotientIsUnique(w, EXPONENT, e, c + s * SIGN);
  }

  /** The number that a compact word stands for after rounding m. */
  function Rounded(m: nat): nat {
    Magnitude(Exponent(m), Mantissa(m))
  }

  lemma FromToCompact(n: int)
    requires Fits(Abs(n))
    ensures FromCompact(ToCompact(n)) == if n < 0 then -(Rounded(Abs(n)) as int) else Rounded(Abs(n))
  {
    Parts(n);
  }

  /** Rounding is down, by less than one part in 2^15. */
  lemma RoundsDown(m: nat)
    ensures Rounded(m) <= m && (m - Rounded(m)) * 0x8000 <= m
    ensures Exponent(m) <= 3 ==> Rounded(m) == m
  {
    var e := Exponent(m);
    if e <= 3 {
      var p := Pow(256, 3 - e);
      PowPositive(256, 3 - e);
      QuotientIsUnique(m * p, p, m, 0);
    } else {
      var p := Pow(256, e - 3);
      PowPositive(256, e - 3);
      MantissaRange(m);
      assert m == m / p * p + m % p;
      Products(0x8000, p, m / p, p);
    }
  }

  /** A rounded number has the same exponent and mantissa. */
  lemma RoundedIsStable(m: nat)
    ensures Exponent(Rounded(m)) == Exponent(m) && Mantissa(Rounded(m)) == Mantissa(m)
  {
    RoundsDown(m);
    var e := Exponent(m);
    if e > 3 {
      var p := Pow(256, e - 3);
      PowPositive(256, e - 3);
      MantissaRange(m);
      ExponentBounds(m);
      PowStep(e - 3);
      Products(0x8000, p, Mantissa(m), p);
      ExponentIs(Rounded(m), e);
      QuotientIsUnique(Rounded(m), p, Mantissa(m), 0);
    }
  }

  /** Decoding rounds towards zero by less than one part in 2^15, and encoding again changes nothing. */
  lemma CompactRounds(n: int)
    requires Fits(Abs(n))
    ensures var d := FromCompact(ToCompact(n));
      && Abs(d) <= Abs(n) && (Abs(n) - Abs(d)) * 0x8000 <= Abs(n)
      && (d == 0 || (d < 0 <==> n < 0))
      && ToCompact(d) == ToCompact(n)
  {
    FromToCompact(n);
    RoundsDown(Abs(n));
    RoundedIsStable(Abs(n));
    if n != 0 {
      ExponentBounds(Abs(n));
    }
  }

  lemma MantissaIsMonotone(a: nat, b: nat)
    requires a <= b && Exponent(a) == Exponent(b)
    ensures Mantissa(a) <= Mantissa(b)
  {
    var e := Exponent(a);
    if e <= 3 {
      Products(a, Pow(256, 3 - e), b, Pow(256, 3 - e));
    } else {
      var p := Pow(256, e - 3);
      PowPositive(256, e - 3);
      Quotient(a, p, Cut(a, e - 3));
      Quotient(b, p, Cut(a, e - 3));
    }
  }

  lemma ExponentIsMonotone(a: nat, b: nat)
    requires a <= b
    ensures Exponent(a) <= Exponent(b)
  {
    if a > 0 {
      ExponentBounds(a);
      ExponentBounds(b);
      if Exponent(b) < Exponent(a) { PowGrows(256, Exponent(b) - 1, Exponent(a) - 2); }
    }
  }

  lemma WordsInOrder(c: nat, e: nat, d: nat, f: nat)
    requires c < SIGN && d < SIGN && e < 256 && f < 256 && (e < f || (e == f && c <= d))
    ensures c + e % 256 * EXPONENT <= d + f % 256 * EXPONENT
  {
  }

  /** Larger numbers have larger compact words. */
  lemma CompactIsMonotone(a: nat, b: nat)
    requires a <= b && Fits(a) && Fits(b)
    ensures ToCompact(a) <= ToCompact(b)
  {
    MantissaRange(a);
    MantissaRange(b);
    ExponentIsMonotone(a, b);
    if Exponent(a) == Exponent(b) { MantissaIsMonotone(a, b); }
    WordsInOrder(Mantissa(a), Exponent(a), Mantissa(b), Exponent(b));
  }

  /** The exponent of a target of 256 bits fits. */
  lemma TargetsFit(m: nat)
    requires m < Pow(256, 32)
    ensures Fits(m)
  {
    if m > 0 {
      ByteBounds(m);
      if ByteCount(m) > 32 { PowGrows(256, 32, ByteCount(m) - 1); }
    }
  }

  lemma MagnitudeGrows(f: nat, e: nat, word: nat)
    requires f < e && e > 3 && word > 0
    ensures Magnitude(f, word) < Magnitude(e, word)
  {
    var low := if f <= 3 then 0 else f - 3;
    var p, q := Pow(256, low), Pow(256, e - 3);
    PowStep(low);
    PowPositive(256, low);
    PowGrows(256, low + 1, e - 3);
    Products(word, p + 1, word, q);
    if f <= 3 {
      PowPositive(256, 3 - f);
      Quotient(word, Pow(256, 3 - f), word + 1);
      Products(word + 1, 1, word + 1, Pow(256, 3 - f));
    }
  }

  /** A word stands for its number, rounded, exactly when the exponent fits. */
  lemma RecoveredExactly(m: nat)
    ensures FromCompact(ToCompact(m)) == Rounded(m) <==> Fits(m)
  {
    if Fits(m) {
      FromToCompact(m);
    } else {
      MantissaRange(m);
      var e, c := Exponent(m), Mantissa(m);
      PartsOfWord(e % 256, c, 0);
      MagnitudeGrows(e % 256, e, c);
    }
  }
}
