/** Compression of amounts (src/core.cpp): trailing zeros become an exponent. */
module Amount {
  import opened Arithmetic
  import opened Words

  const MAX_MONEY: nat := 111000000 * 100000000

  // ----- specification -----

  function Pow10(e: nat): (p: nat)
    ensures p > 0
  {
    if e == 0 then 1 else 10 * Pow10(e - 1)
  }

  /** The exponent stored for n: its trailing zeros, but at most `room` of them. */
  function Exponent(n: nat, room: nat): (e: nat)
    requires n > 0
    ensures e <= room
    decreases room
  {
    if n % 10 == 0 && room > 0 then 1 + Exponent(n / 10, room - 1) else 0
  }

  /** What is left of n when its exponent has been taken out. */
  function Mantissa(n: nat, room: nat): (m: nat)
    requires n > 0
    ensures m > 0
    decreases room
  {
    if n % 10 == 0 && room > 0 then Mantissa(n / 10, room - 1) else n
  }

  /** The code of mantissa m and exponent e. */
  function Pack(m: nat, e: nat): nat
    requires m > 0 && e <= 9
  {
    if e < 9 then 1 + (m / 10 * 9 + m % 10 - 1) * 10 + e else 1 + (m - 1) * 10 + 9
  }

  function Compress(n: nat): nat {
    if n == 0 then 0 else Pack(Mantissa(n, 9), Exponent(n, 9))
  }

  /** The largest number without a trailing zero whose code fits 64 bits. */
  const LIMIT: nat := 2049638230412172402

  /** The code fits 64 bits: there is a trailing zero to take out, or the number is not too large. */
  predicate Recoverable(n: nat) {
    n % 10 == 0 || n <= LIMIT
  }

  function Unpacked(x: nat): nat
    requires x > 0
  {
    var y := (x - 1) / 10;
    if (x - 1) % 10 < 9 then y / 9 * 10 + y % 9 + 1 else y + 1
  }

  function Decompress(x: nat): nat {
    if x == 0 then 0 else Unpacked(x) * Pow10((x - 1) % 10)
  }

  // ----- the code -----

  /** CompressAmount, which computes modulo 2^64. Nothing is lost exactly for a recoverable amount, such as an
      amount of money. */
  method CompressAmount(amount: nat) returns (x: nat)
    requires amount < ULONG
    ensures x == Compress(amount) % ULONG
    ensures x == Compress(amount) <==> Recoverable(amount)
    ensures amount <= MAX_MONEY ==> x == Compress(amount)
  {
    CodeFitsExactly(amount);
    if amount == 0 { return 0; }
    var n, e := TakeZeros(amount);
    x := PackInWord(n, e);
    if Recoverable(amount) { SmallInWord(Compress(amount)); }
  }

  /** The first loop of CompressAmount. */
  method TakeZeros(amount: nat) returns (n: nat, e: nat)
    requires amount > 0
    ensures n == Mantissa(amount, 9) && e == Exponent(amount, 9)
    ensures e < 9 ==> n % 10 != 0
  {
    n, e := amount, 0;
    while n % 10 == 0 && e < 9
      invariant n > 0 && e <= 9
      invariant Mantissa(amount, 9) == Mantissa(n, 9 - e) && Exponent(amount, 9) == e + Exponent(n, 9 - e)
      decreases 9 - e
    {
      n := n / 10;
      e := e + 1;
    }
  }

  /** The last lines of CompressAmount. */
  method PackInWord(m: nat, e: nat) returns (x: nat)
    requires m > 0 && e <= 9 && (e < 9 ==> m % 10 != 0)
    ensures x == Pack(m, e) % ULONG
  {
    if e < 9 {
      var d := m % 10;
      var n := m / 10;
      x := (1 + (n * 9 + d - 1) * 10 + e) % ULONG;
    } else {
      x := (1 + (m - 1) * 10 + 9) % ULONG;
    }
  }

  lemma SmallInWord(k: nat)
    requires k < ULONG
    ensures k % ULONG == k
  {
  }

  /** DecompressAmount, which computes modulo 2^64. Nothing wraps when the amount is one of 64 bits. */
  method DecompressAmount(code: nat) returns (n: nat)
    requires code < ULONG
    ensures n == Decompress(code) % ULONG
    ensures Decompress(code) < ULONG ==> n == Decompress(code)
  {
    if code == 0 { return 0; }
    var m, e := UnpackInWord(code);
    n := Scale(m, e);
    if Decompress(code) < ULONG { SmallInWord(Decompress(code)); }
  }

  /** The first lines of DecompressAmount, in which nothing wraps. */
  method UnpackInWord(code: nat) returns (n: nat, e: nat)
    requires 0 < code < ULONG
    ensures n == Unpacked(code) && n < ULONG && e == (code - 1) % 10
  {
    var x := code - 1;
    e := x % 10;
    x := x / 10;
    if e < 9 {
      var d := x % 9 + 1;
      x := x / 9;
      n := x * 10 + d;
    } else {
      n := x + 1;
    }
  }

  /** The last loop of DecompressAmount. */
  method Scale(m: nat, exponent: nat) returns (n: nat)
    requires m < ULONG
    ensures n == m * Pow10(exponent) % ULONG
  {
    n := m;
    var e := exponent;
    while e > 0
      invariant n < ULONG && n * Pow10(e) % ULONG == m * Pow10(exponent) % ULONG
    {
      TenTimes(n, e);
      n := n * 10 % ULONG;
      e := e - 1;
    }
  }

  lemma TenTimes(n: nat, e: nat)
    requires e > 0
    ensures n * 10 % ULONG * Pow10(e - 1) % ULONG == n * Pow10(e) % ULONG
  {
    var p, k := Pow10(e - 1), n * 10 / ULONG;
    var r := n * 10 % ULONG;
    assert n * Pow10(e) == n * 10 * p;
    assert (r + k * ULONG) * p == r * p + k * p * ULONG;
    AddMultiple(r * p, ULONG, k * p);
  }

  // ----- properties -----

  lemma {:induction false} MantissaAndExponent(n: nat, room: nat)
    requires n > 0
    ensures Mantissa(n, room) * Pow10(Exponent(n, room)) == n
    ensures Exponent(n, room) < room ==> Mantissa(n, room) % 10 != 0
    decreases room
  {
    if n % 10 == 0 && room > 0 {
      MantissaAndExponent(n / 10, room - 1);
      var m, e := Mantissa(n / 10, room - 1), Exponent(n / 10, room - 1);
      assert m * (10 * Pow10(e)) == 10 * (m * Pow10(e));
    }
  }

  lemma {:induction false} ExponentIsFound(m: nat, e: nat, room: nat)
    requires m > 0 && e <= room && (e < room ==> m % 10 != 0)
    ensures m * Pow10(e) > 0
    ensures Mantissa(m * Pow10(e), room) == m && Exponent(m * Pow10(e), room) == e
    decreases e
  {
    if e == 0 {
      assert m * Pow10(0) == m;
    } else {
      ExponentIsFound(m, e - 1, room - 1);
      OneZeroMore(m * Pow10(e - 1), room);
      assert m * Pow10(e) == 10 * (m * Pow10(e - 1));
    }
  }

  lemma OneZeroMore(k: nat, room: nat)
    requires k > 0 && room > 0
    ensures Mantissa(10 * k, room) == Mantissa(k, room - 1) && Exponent(10 * k, room) == 1 + Exponent(k, room - 1)
  {
    QuotientIsUnique(10 * k, 10, k, 0);
  }

  lemma PackUnpacks(m: nat, e: nat)
    requires m > 0 && e <= 9 && (e < 9 ==> m % 10 != 0)
    ensures Pack(m, e) > 0 && (Pack(m, e) - 1) % 10 == e && Unpacked(Pack(m, e)) == m
  {
    var y := (Pack(m, e) - 1) / 10;
    if e < 9 {
      QuotientIsUnique(Pack(m, e) - 1, 10, m / 10 * 9 + m % 10 - 1, e);
      QuotientIsUnique(y, 9, m / 10, m % 10 - 1);
    } else {
      QuotientIsUnique(Pack(m, e) - 1, 10, m - 1, 9);
    }
  }

  lemma UnpackPacks(x: nat)
    requires x > 0
    ensures var m, e := Unpacked(x), (x - 1) % 10;
      m > 0 && (e < 9 ==> m % 10 != 0) && Pack(m, e) == x
  {
    var y, e := (x - 1) / 10, (x - 1) % 10;
    assert x - 1 == y * 10 + e;
    if e < 9 {
      assert y == y / 9 * 9 + y % 9;
      QuotientIsUnique(Unpacked(x), 10, y / 9, y % 9 + 1);
    }
  }

  /** No amount is lost by compression. */
  lemma DecompressCompress(n: nat)
    ensures Decompress(Compress(n)) == n
  {
    if n > 0 {
      MantissaAndExponent(n, 9);
      PackUnpacks(Mantissa(n, 9), Exponent(n, 9));
    }
  }

  // ----- amounts in 64 bits -----

  lemma CodeFitsExactly(n: nat)
    requires n < ULONG
    ensures Compress(n) < ULONG <==> Recoverable(n)
  {
    if n > 0 {
      if n % 10 == 0 { ZeroTakenOut(n); } else { OddCode(n); }
    }
  }

  lemma ZeroTakenOut(n: nat)
    requires 0 < n < ULONG && n % 10 == 0
    ensures Compress(n) < ULONG
  {
    MantissaAndExponent(n / 10, 8);
    var m, e := Mantissa(n / 10, 8), Exponent(n / 10, 8);
    assert m <= m * Pow10(e);
    PackIsSmall(m, 1 + e);
  }

  lemma PackIsSmall(m: nat, e: nat)
    requires m > 0 && e <= 9
    ensures Pack(m, e) <= 10 * m
  {
  }

  /** The code of a number without trailing zeros. */
  lemma OddCode(n: nat)
    requires n % 10 != 0
    ensures Compress(n) == 9 * n + n % 10 - 9
  {
  }

  /** An amount is recovered in 64 bits exactly when its code fits them, which can be told from the amount; every
      amount of money is. */
  lemma RecoveredIn64Bits(n: nat)
    requires n < ULONG
    ensures Compress(n) < ULONG <==> Recoverable(n)
    ensures Decompress(Compress(n) % ULONG) % ULONG == n <==> Recoverable(n)
    ensures n <= MAX_MONEY ==> Recoverable(n)
  {
    CodeFitsExactly(n);
    if Compress(n) < ULONG {
      SmallInWord(Compress(n));
      DecompressCompress(n);
      SmallInWord(n);
    } else {
      WrappedIsLost(n, Compress(n) / ULONG);
    }
  }

  /** A code that wraps k times is read as another one, whose exponent depends on k only. */
  lemma WrappedIsLost(n: nat, k: nat)
    requires n < ULONG && !Recoverable(n) && k == Compress(n) / ULONG
    ensures Decompress(Compress(n) % ULONG) % ULONG != n
  {
    OddCode(n);
    var x := Compress(n) % ULONG;
    assert 9 * n + n % 10 - 9 == k * ULONG + x && 1 <= k <= 8;
    if x > 0 {
      RestIsLost(n, x, k);
    }
  }

  lemma RestIsLost(n: nat, x: nat, k: nat)
    requires n < ULONG && n % 10 != 0 && 9 * n + n % 10 - 9 == k * ULONG + x && 0 < x < ULONG && 1 <= k <= 8
    ensures Decompress(x) % ULONG != n
  {
    if k == 5 {
      UnscaledIsLost(n, x, 9223372036854775808);
    } else if k == 1 || k == 6 {
      LargeWith4();
      ScaledIsLost(n, x, k, 4, if k == 1 then 1844674407370955162 else 11068046444225730970);
    } else if k == 2 || k == 7 {
      LargeWith8();
      ScaledIsLost(n, x, k, 8, if k == 2 then 3689348814741910324 else 12912720851596686132);
    } else if k == 3 || k == 8 {
      LargeWith2();
      ScaledIsLost(n, x, k, 2, if k == 3 then 5534023222112865485 else 14757395258967641293);
    } else {
      LargeWith6();
      ScaledIsLost(n, x, 4, 6, 7378697629483820647);
    }
  }

  lemma LargeWith2()
    ensures NoneSmall(5534023222112865485, 2) && NoneSmall(14757395258967641293, 2)
  {
    LargePair(5534023222112865485, 614891469123651720, 2, 12670490878911611211,
              4223496959637203736, 4223496959637203737);
    LargePair(14757395258967641293, 1639710584329737921, 2, 12670490878911611211,
              11262658559032543298, 11262658559032543299);
  }

  lemma LargeWith4()
    ensures NoneSmall(1844674407370955162, 4) && NoneSmall(11068046444225730970, 4)
  {
    LargePair(1844674407370955162, 204963823041217240, 4, 13458245626333751279,
              1495360625148194586, 1495360625148194587);
    LargePair(11068046444225730970, 1229782938247303441, 4, 13458245626333751279,
              8972163750889167519, 8972163750889167520);
  }

  lemma LargeWith6()
    ensures NoneSmall(7378697629483820647, 6)
  {
    LargePair(7378697629483820647, 819855292164868960, 6, 1672254362768354751, 743224161230379889, 743224161230379889);
  }

  lemma LargeWith8()
    ensures NoneSmall(3689348814741910324, 8) && NoneSmall(12912720851596686132, 8)
  {
    LargePair(3689348814741910324, 409927646082434480, 8, 300153063250403071, 66700680722311793, 66700680722311793);
    LargePair(12912720851596686132, 1434746761288520681, 8, 300153063250403071, 233452382528091277, 233452382528091277);
  }

  /** Both products less a multiple of 2^64 are too large. */
  lemma LargePair(shift: nat, s: nat, e: nat, inverse: nat, q: nat, q': nat)
    requires inverse == Inverse(e) && 0 <= shift - 9 * s < 9
    requires LIMIT < (shift + s) * inverse - q * ULONG < ULONG
    requires LIMIT < (shift + s + 1) * inverse - q' * ULONG < ULONG
    ensures NoneSmall(shift, e)
  {
    QuotientIsUnique(shift, 9, s, shift - 9 * s);
    QuotientIsUnique((shift + s) * inverse, ULONG, q, (shift + s) * inverse - q * ULONG);
    QuotientIsUnique((shift + s + 1) * inverse, ULONG, q', (shift + s + 1) * inverse - q' * ULONG);
  }

  /** What is read from the code that is left: the exponent e, and a smaller mantissa. */
  lemma WrappedParts(n: nat, x: nat, k: nat, e: nat, shift: nat)
    requires n % 10 != 0 && 9 * n + n % 10 - 9 == k * ULONG + x && x > 0
    requires k * ULONG + e == 10 * shift && e < 9
    ensures (x - 1) % 10 == e
    ensures n - Unpacked(x) == shift + shift / 9 || n - Unpacked(x) == shift + shift / 9 + 1
  {
    QuotientIsUnique(x - 1, 10, n / 10 * 9 + n % 10 - 1 - shift, e);
    ShiftedMantissa(n / 10, n % 10 - 1, shift);
  }

  lemma ShiftedMantissa(a: nat, d: nat, shift: nat)
    requires d < 9 && shift <= 9 * a + d
    ensures var y := 9 * a + d - shift;
      var gap := 10 * a + d + 1 - (y / 9 * 10 + y % 9 + 1);
      gap == shift + shift / 9 || gap == shift + shift / 9 + 1
  {
    var q, r := shift / 9, shift % 9;
    var y := 9 * a + d - shift;
    if d >= r { QuotientIsUnique(y, 9, a - q, d - r); } else { QuotientIsUnique(y, 9, a - q - 1, d - r + 9); }
  }

  lemma SmallMantissa(x: nat)
    requires 0 < x < ULONG && (x - 1) % 10 < 9
    ensures Unpacked(x) <= LIMIT
  {
  }

  /** The inverse of 10^e - 1 modulo 2^64. */
  function Inverse(e: nat): nat {
    if e == 2 then 12670490878911611211
    else if e == 4 then 13458245626333751279
    else if e == 6 then 1672254362768354751
    else 300153063250403071
  }

  lemma UnscaledIsLost(n: nat, x: nat, shift: nat)
    requires n % 10 != 0 && 9 * n + n % 10 - 9 == 5 * ULONG + x && 0 < x < ULONG && 5 * ULONG == 10 * shift
    ensures Decompress(x) % ULONG != n
  {
    WrappedParts(n, x, 5, 0, shift);
    SmallMantissa(x);
    SmallInWord(Unpacked(x));
    assert Decompress(x) == Unpacked(x) * Pow10(0) == Unpacked(x);
  }

  /** Only one mantissa u gives u * 10^e == u + gap modulo 2^64, and it is too large to be read from a code. */
  lemma ScaledIsLost(n: nat, x: nat, k: nat, e: nat, shift: nat)
    requires n < ULONG && n % 10 != 0 && 9 * n + n % 10 - 9 == k * ULONG + x && 0 < x < ULONG
    requires k * ULONG + e == 10 * shift && e in {2, 4, 6, 8}
    requires NoneSmall(shift, e)
    ensures Decompress(x) % ULONG != n
  {
    WrappedParts(n, x, k, e, shift);
    SmallMantissa(x);
    MantissaDiffers(n, Unpacked(x), e);
  }

  lemma MantissaDiffers(n: nat, u: nat, e: nat)
    requires n < ULONG && u <= LIMIT && u <= n && e in {2, 4, 6, 8} && Candidate(n - u, e) > LIMIT
    ensures u * Pow10(e) % ULONG != n
  {
    var p := Pow10(e);
    if u * p % ULONG == n {
      InverseOf(e);
      MantissaTimes(u, p, n);
      OneCandidate(u, p - 1, e, n - u, u * p / ULONG);
    }
  }

  lemma MantissaTimes(u: nat, p: nat, n: nat)
    requires p > 0 && u * p % ULONG == n
    ensures (p - 1) * u == n - u + u * p / ULONG * ULONG
  {
    assert (p - 1) * u == u * p - u;
  }

  lemma InverseOf(e: nat)
    requires e in {2, 4, 6, 8}
    ensures (Pow10(e) - 1) * Inverse(e) % ULONG == 1
  {
    assert Pow10(0) == 1 && Pow10(1) == 10 && Pow10(2) == 100 && Pow10(3) == 1000 && Pow10(4) == 10000;
    assert Pow10(5) == 100000 && Pow10(6) == 1000000 && Pow10(7) == 10000000 && Pow10(8) == 100000000;
    assert 99 * Inverse(2) % ULONG == 1 && 9999 * Inverse(4) % ULONG == 1;
    assert 999999 * Inverse(6) % ULONG == 1 && 99999999 * Inverse(8) % ULONG == 1;
  }

  function Candidate(gap: nat, e: nat): nat {
    gap * Inverse(e) % ULONG
  }

  /** The mantissas that a code could be taken for when it has lost `shift` are too large. */
  predicate NoneSmall(shift: nat, e: nat) {
    Candidate(shift + shift / 9, e) > LIMIT && Candidate(shift + shift / 9 + 1, e) > LIMIT
  }

  lemma OneCandidate(u: nat, p: nat, e: nat, gap: nat, z: int)
    requires u < ULONG && p * Inverse(e) % ULONG == 1 && p * u == gap + z * ULONG
    ensures u == Candidate(gap, e)
  {
    var inverse := Inverse(e);
    var w := p * inverse / ULONG;
    assert p * inverse == w * ULONG + 1;
    assert p * u * inverse == u * (p * inverse);
    assert (gap + z * ULONG) * inverse == gap * inverse + z * inverse * ULONG;
    assert u * (w * ULONG + 1) == u * w * ULONG + u;
    assert gap * inverse == (u * w - z * inverse) * ULONG + u;
    QuotientIsUnique(gap * inverse, ULONG, u * w - z * inverse, u);
  }

  /** The largest number of 64 bits is not recovered. */
  lemma LargestIsLost()
    ensures Compress(ULONG - 1) >= ULONG
    ensures Decompress(Compress(ULONG - 1) % ULONG) % ULONG != ULONG - 1
  {
    var n := ULONG - 1;
    assert n % 10 == 5;
    CodeFitsExactly(n);
    RecoveredIn64Bits(n);
  }

  /** Every code is the code of an amount. */
  lemma CompressDecompress(x: nat)
    ensures Compress(Decompress(x)) == x
  {
    if x > 0 {
      UnpackPacks(x);
      ExponentIsFound(Unpacked(x), (x - 1) % 10, 9);
    }
  }
}
