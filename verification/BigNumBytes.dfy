/** The bytes of big numbers (src/bignum.h): the format of BN_mpi2bn, whose highest bit is the sign,
    turned around to little-endian by setvch and getvch. */
module BigNumBytes {
  import opened Arithmetic
  import opened Words
  import opened Radix
  import opened Sequences

  /** Big-endian digits with a sign: the highest bit, in a byte of its own where it is taken. */
  function Signed(d: seq<nat>, negative: bool): seq<nat> {
    var sign := if negative then 128 else 0;
    if |d| == 0 then [] else if d[0] >= 128 then [sign] + d else d[0 := d[0] + sign]
  }

  /** BN_mpi2bn, without its four bytes of length. */
  function FromSigned(v: seq<nat>): int {
    if |v| == 0 then 0
    else if v[0] >= 128 then -(Value(v[0 := v[0] - 128], 256) as int)
    else Value(v, 256)
  }

  function Magnitude(n: int): nat {
    if n < 0 then -n else n
  }

  /** BN_bn2mpi, without its four bytes of length. */
  function ToSigned(n: int): seq<nat> {
    Signed(Digits(Magnitude(n), 256), n < 0)
  }

  /** setvch. */
  function FromBytes(v: seq<nat>): int {
    FromSigned(Reversed(v))
  }

  /** getvch. */
  function ToBytes(n: int): seq<nat> {
    Reversed(ToSigned(n))
  }

  // ----- round trips -----

  lemma ValueOfHigh(d: seq<nat>, sign: nat)
    requires |d| > 0 && d[0] >= 128 && (sign == 0 || sign == 128)
    ensures FromSigned([sign] + d) == if sign == 128 then -(Value(d, 256) as int) else Value(d, 256)
  {
    var v := [sign] + d;
    ValueOfZeros(d, 1, 256);
    assert v[0 := 0] == Zeros(1) + d;
    if sign == 0 { assert v == v[0 := 0]; }
  }

  lemma ValueOfLow(d: seq<nat>, sign: nat)
    requires |d| > 0 && d[0] < 128 && (sign == 0 || sign == 128)
    ensures FromSigned(d[0 := d[0] + sign]) == if sign == 128 then -(Value(d, 256) as int) else Value(d, 256)
  {
    var v := d[0 := d[0] + sign];
    assert v[0 := d[0]] == d;
    if sign == 0 { assert v == d; }
  }

  lemma ValueOfSigned(d: seq<nat>, negative: bool)
    requires InBase(d, 256)
    ensures FromSigned(Signed(d, negative)) == if negative then -(Value(d, 256) as int) else Value(d, 256)
    ensures InBase(Signed(d, negative), 256)
  {
    var sign := if negative then 128 else 0;
    if |d| > 0 {
      if d[0] >= 128 { ValueOfHigh(d, sign); } else { ValueOfLow(d, sign); }
    }
  }

  /** Every number is given back by its bytes. */
  lemma BytesGiveBack(n: int)
    ensures FromBytes(ToBytes(n)) == n && InBase(ToBytes(n), 256)
  {
    DigitsAreDigits(Magnitude(n), 256);
    ValueOfSigned(Digits(Magnitude(n), 256), n < 0);
    ReversedTwice(ToSigned(n));
  }

  lemma SignedDigits(m: nat, d: seq<nat>, negative: bool)
    requires m > 0 && Digits(m, 256) == d
    ensures ToSigned(if negative then -(m as int) else m) == Signed(d, negative)
  {
  }

  /** Digits without a leading zero are found again. */
  lemma ShortestOf(d: seq<nat>, negative: bool)
    requires InBase(d, 256) && |d| > 0 && d[0] != 0
    ensures ToSigned(FromSigned(Signed(d, negative))) == Signed(d, negative)
  {
    ValueIsPositive(d, 256);
    DigitsOfValue(d, 256);
    ValueOfSigned(d, negative);
    SignedDigits(Value(d, 256), d, negative);
  }

  /** The bytes of zero are none at all, so no other bytes of zero are given back. */
  lemma BytesOfZero(v: seq<nat>)
    requires |v| > 0 && v[0] % 128 == 0 && v[0] < 256 && (|v| > 1 ==> v[1] < 128)
    ensures ToSigned(FromSigned(v)) != v
  {
    DigitsAreDigits(Magnitude(FromSigned(v)), 256);
  }

  /** Bytes are those of the number they stand for exactly when they are the shortest ones. */
  lemma ShortestBytes(v: seq<nat>)
    requires InBase(v, 256)
    ensures ToSigned(FromSigned(v)) == v <==>
      (|v| > 0 ==> v[0] % 128 != 0 || (|v| > 1 && v[1] >= 128))
  {
    if |v| > 0 {
      var negative := v[0] >= 128;
      if v[0] % 128 != 0 {
        var d := v[0 := v[0] % 128];
        assert Signed(d, negative) == v;
        ShortestOf(d, negative);
      } else if |v| > 1 && v[1] >= 128 {
        assert v[0] == 0 || v[0] == 128;
        assert Signed(v[1..], negative) == v;
        ShortestOf(v[1..], negative);
      } else {
        BytesOfZero(v);
      }
    }
  }

  // ----- setint64 -----

  const HIGH: nat := 0x100_0000_0000_0000

  /** The number of a word of 64 bits, byte by byte from the highest one; the least one has no positive
      counterpart of its type. */
  method SetInt64(sn: int) returns (p: seq<nat>)
    requires -0x8000_0000_0000_0000 <= sn < 0x8000_0000_0000_0000
    ensures p == ToSigned(sn) && FromSigned(p) == sn
  {
    var negative := sn < 0;
    var n: nat := if negative then -(sn + 1) else sn;
    if negative { n := n + 1; }
    p := BytesOfWord(n, negative);
    DigitsAreDigits(n, 256);
    ValueOfSigned(Digits(n, 256), negative);
  }

  /** The loop of setint64, and with no sign that of setuint64. */
  method BytesOfWord(m: nat, negative: bool) returns (p: seq<nat>)
    requires m < ULONG
    ensures p == Signed(Digits(m, 256), negative)
  {
    p := [];
    var n := m;
    var leading := true;
    ghost var high: nat, low: nat := 0, m;
    var i := 0;
    WordOfBytes();
    while i < 8
      invariant i <= 8 && n == low * Pow(256, i) && low < Pow(256, 8 - i) && m == high * Pow(256, 8 - i) + low
      invariant leading <==> high == 0
      invariant p == Signed(Digits(high, 256), negative)
    {
      var c := n / HIGH;
      n := n * 256 % ULONG;
      ghost var before := high;
      high, low := ByteTaken(m, high, low, i, c, n);
      p, leading := AppendByte(p, leading, before, c, negative);
      i := i + 1;
    }
  }

  /** Appends a byte unless it is a leading zero; the sign goes in front of the first one or into it. */
  method AppendByte(p: seq<nat>, leading: bool, ghost high: nat, c: nat, negative: bool)
    returns (q: seq<nat>, still: bool)
    requires c < 256 && (leading <==> high == 0) && p == Signed(Digits(high, 256), negative)
    ensures (still <==> high * 256 + c == 0) && q == Signed(Digits(high * 256 + c, 256), negative)
  {
    q, still := p, leading;
    var b := c;
    if leading {
      if c == 0 { return; }
      FirstByte(c);
      if c >= 128 {
        q := q + [if negative then 128 else 0];
      } else if negative {
        b := c + 128;
      }
      still := false;
    } else {
      NextByte(high, c, negative);
    }
    q := q + [b];
  }

  lemma WordOfBytes()
    ensures ULONG == Pow(256, 8) && HIGH == Pow(256, 7) && Pow(256, 0) == 1
  {
    assert Pow(256, 2) == 65536;
    assert Pow(256, 4) == 4294967296;
  }

  /** What taking the highest byte of the word does to the bytes taken and the ones left. */
  lemma ByteTaken(m: nat, high: nat, low: nat, i: nat, c: nat, n: nat) returns (high': nat, low': nat)
    requires i < 8 && low < Pow(256, 8 - i) && m == high * Pow(256, 8 - i) + low
    requires c == low * Pow(256, i) / HIGH && n == low * Pow(256, i) * 256 % ULONG
    ensures c < 256 && high' == high * 256 + c
    ensures n == low' * Pow(256, i + 1) && low' < Pow(256, 7 - i) && m == high' * Pow(256, 7 - i) + low'
  {
    PowersOfWord(i);
    low' := Taken(m, high, low, Pow(256, i), Pow(256, 7 - i), c, n);
    high' := high * 256 + c;
  }

  lemma Taken(m: nat, high: nat, low: nat, p: nat, q: nat, c: nat, n: nat) returns (rest: nat)
    requires p > 0 && q > 0 && q * p == HIGH && p * q * 256 == ULONG && low < 256 * q && m == high * (256 * q) + low
    requires c == low * p / HIGH && n == low * p * 256 % ULONG
    ensures c < 256 && rest < q && n == rest * (256 * p) && m == (high * 256 + c) * q + rest
  {
    var d := low / q;
    rest := low % q;
    assert low == d * q + rest;
    TopByte(low, p, q, d, rest);
    Combined(high, d, q, rest);
  }

  lemma PowersOfWord(i: nat)
    requires i < 8
    ensures var p, q := Pow(256, i), Pow(256, 7 - i);
      p > 0 && q > 0 && q * p == HIGH && p * q * 256 == ULONG
    ensures Pow(256, i + 1) == 256 * Pow(256, i) && Pow(256, 8 - i) == 256 * Pow(256, 7 - i)
  {
    PowPositive(256, i);
    PowPositive(256, 7 - i);
    PowAdd(256, 7 - i, i);
    WordOfBytes();
  }

  lemma Combined(high: nat, c: nat, q: nat, rest: nat)
    ensures high * (256 * q) + (c * q + rest) == (high * 256 + c) * q + rest
  {
  }

  lemma TopByte(low: nat, p: nat, q: nat, c: nat, rest: nat)
    requires p > 0 && q > 0 && low == c * q + rest && rest < q && low < 256 * q && p * q * 256 == ULONG
    ensures c < 256 && q * p > 0 && low * p / (q * p) == c && low * p * 256 % ULONG == rest * (256 * p)
  {
    if c >= 256 { Products(256, q, c, q); }
    Products(rest + 1, p, q, p);
    Products(1, 1, q, p);
    assert low * p == c * (q * p) + rest * p;
    QuotientIsUnique(low * p, q * p, c, rest * p);
    assert low * p * 256 == c * (p * q * 256) + rest * (256 * p);
    QuotientIsUnique(low * p * 256, ULONG, c, rest * (256 * p));
  }

  lemma FirstByte(c: nat)
    requires 0 < c < 256
    ensures Digits(c, 256) == [c] && Digits(0 * 256 + c, 256) == [c]
  {
    assert c / 256 == 0 && c % 256 == c;
  }

  lemma NextByte(high: nat, c: nat, negative: bool)
    requires high > 0 && c < 256
    ensures Signed(Digits(high * 256 + c, 256), negative) == Signed(Digits(high, 256), negative) + [c]
  {
    var d := Digits(high, 256);
    DigitsAreDigits(high, 256);
    assert Digits(high * 256 + c, 256) == d + [c];
  }
}
