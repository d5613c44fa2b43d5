/** Variable-length integers (src/serialize.h): base 128, most significant digit first, the high bit
    set in every byte but the last, and one subtracted from every digit but the last. */
module VarInt {
  import opened Wrappers
  import opened Words
  import opened Arithmetic
  import opened Sequences

  type Byte = b: int | 0 <= b < 256

  datatype Parsed<T> = Parsed(value: T, rest: seq<Byte>)

  // ----- specification -----

  /** The bytes of n; a further byte follows them when `more` holds. */
  function Digits(n: nat, more: bool): (s: seq<Byte>)
    ensures |s| > 0
  {
    var flag := if more then 128 else 0;
    if n < 128 then [n + flag] else Digits(n / 128 - 1, true) + [n % 128 + flag]
  }

  /** What is written for an integer of a signed type: a negative one counts as a last digit. */
  function Encode(n: int): (s: seq<Byte>)
    ensures |s| > 0
  {
    if n < 0 then [n % 128] else Digits(n, false)
  }

  /** The number that the bytes of s stand for when the digits so far make n; nothing if the stream ends first. */
  function Decode(s: seq<Byte>, n: nat): Option<Parsed<nat>> {
    if |s| == 0 then None
    else if s[0] >= 128 then Decode(s[1..], 128 * n + s[0] - 128 + 1)
    else Some(Parsed(128 * n + s[0], s[1..]))
  }

  /** A number in an unsigned type with m values. */
  function Wrapped(m: nat, r: Option<Parsed<nat>>): Option<Parsed<nat>>
    requires m > 0
  {
    if r.None? then None else Some(Parsed(r.value.value % m, r.value.rest))
  }

  /** What a reader of an unsigned type with m values returns. */
  function ReadAs(m: nat, s: seq<Byte>): Option<Parsed<nat>>
    requires m > 0
  {
    Wrapped(m, Decode(s, 0))
  }

  /** What a reader of a signed type of 32 bits returns. */
  function ReadInt(s: seq<Byte>): Option<Parsed<int>> {
    var r := ReadAs(UINT, s);
    if r.None? then None else Some(Parsed(AsInt(r.value.value), r.value.rest))
  }

  lemma DigitsStep(n: nat, more: bool)
    requires n >= 128
    ensures Digits(n, more) == Digits(n / 128 - 1, true) + [n % 128 + if more then 128 else 0]
  {
  }

  // ----- the code -----

  /** GetSizeOfVarInt. */
  method GetSizeOfVarInt(n: int) returns (size: nat)
    ensures size == |Encode(n)|
  {
    size := 0;
    var m := n;
    ghost var last := n;
    while true
      invariant size == 0 ==> m == n
      invariant size > 0 ==> m >= 0 && |Encode(n)| == size + |Digits(m, true)|
      decreases if m < 0 then 0 else m
    {
      size := size + 1;
      if m <= 0x7F { break; }
      assert |Digits(m, size > 1)| == |Digits(m / 128 - 1, true)| + 1;
      m := m / 128 - 1;
    }
  }

  lemma OneMoreDigit(m: nat, more: bool, digit: Byte, tmp: seq<Byte>)
    requires digit == m % 128 + if more then 128 else 0
    ensures m < 128 ==> Digits(m, more) + Reversed(tmp) == Reversed(tmp + [digit])
    ensures m >= 128 ==> Digits(m, more) + Reversed(tmp) == Digits(m / 128 - 1, true) + Reversed(tmp + [digit])
  {
    ReversedAppend(tmp, [digit]);
    if m >= 128 {
      DigitsStep(m, more);
      Associates(Digits(m / 128 - 1, true), [digit], Reversed(tmp));
    }
  }

  lemma Associates(a: seq<Byte>, b: seq<Byte>, c: seq<Byte>)
    ensures a + b + c == a + (b + c)
  {
  }

  /** The bytes fit the buffer that WriteVarInt has for a type of w bits. */
  lemma EncodeIsShort(n: int, w: nat)
    requires w > 0 && n < Pow2(w)
    ensures |Encode(n)| <= (w + 6) / 7
  {
    if n >= 0 { DigitsAreFew(n, false, w); }
  }

  lemma {:induction false} DigitsAreFew(n: nat, more: bool, w: nat)
    requires w > 0 && n < Pow2(w)
    ensures |Digits(n, more)| <= (w + 6) / 7
    decreases w
  {
    if n >= 128 {
      SevenBitsLess(w);
      DigitsAreFew(n / 128 - 1, true, w - 7);
    }
  }

  lemma SevenBitsLess(w: nat)
    requires Pow2(w) > 128
    ensures w > 7 && Pow2(w) == 128 * Pow2(w - 7)
  {
    assert Pow2(0) == 1 && Pow2(1) == 2 && Pow2(2) == 4 && Pow2(3) == 8;
    assert Pow2(4) == 16 && Pow2(5) == 32 && Pow2(6) == 64 && Pow2(7) == 128;
    if w > 7 {
      assert Pow2(w) == 2 * Pow2(w - 1) && Pow2(w - 1) == 2 * Pow2(w - 2) && Pow2(w - 2) == 2 * Pow2(w - 3);
      assert Pow2(w - 3) == 2 * Pow2(w - 4) && Pow2(w - 4) == 2 * Pow2(w - 5) && Pow2(w - 5) == 2 * Pow2(w - 6);
    }
  }

  /** One round of the loop: the digit is the last one, or there is room for another. */
  lemma DigitIsTaken(n: int, m: int, digit: Byte, tmp: seq<Byte>)
    requires digit == m % 128 + if |tmp| > 0 then 128 else 0
    requires if m < 0 then tmp == [] && m == n else Encode(n) == Digits(m, |tmp| > 0) + Reversed(tmp)
    ensures m < 128 ==> Encode(n) == Reversed(tmp + [digit])
    ensures m >= 128 ==> |tmp| + 2 <= |Encode(n)|
    ensures m >= 128 ==> Encode(n) == Digits(m / 128 - 1, true) + Reversed(tmp + [digit])
  {
    if m >= 0 { OneMoreDigit(m, |tmp| > 0, digit, tmp); }
    if m >= 128 { DigitsStep(m, |tmp| > 0); }
  }

  /** Puts a byte behind those that are there. */
  method Put(tmp: array<Byte>, len: nat, digit: Byte)
    requires len < tmp.Length
    modifies tmp
    ensures tmp[..len + 1] == old(tmp[..len]) + [digit]
  {
    tmp[len] := digit;
  }

  /** The first loop of WriteVarInt: the digits from the last one on, in a buffer whose length the bits of the type
      determine. */
  method CollectDigits(n: int, w: nat) returns (tmp: array<Byte>, len: nat)
    requires w > 0 && n < Pow2(w)
    ensures fresh(tmp) && len < tmp.Length == (w + 6) / 7 && Reversed(tmp[..len + 1]) == Encode(n)
  {
    EncodeIsShort(n, w);
    tmp, len := new Byte[(w + 6) / 7], 0;
    var m := n;
    while true
      invariant 0 <= len < tmp.Length && |tmp[..len]| == len
      invariant if m < 0 then len == 0 && m == n else Encode(n) == Digits(m, len > 0) + Reversed(tmp[..len])
      decreases if m < 0 then 0 else m
    {
      var digit: Byte := m % 128 + if len > 0 then 128 else 0;
      DigitIsTaken(n, m, digit, tmp[..len]);
      Put(tmp, len, digit);
      if m <= 0x7F { break; }
      m := m / 128 - 1;
      len := len + 1;
    }
  }

  /** WriteVarInt, for a number of a type of w bits: collects the digits from the last one on, then writes them in
      reverse. */
  method WriteVarInt(n: int, w: nat) returns (s: seq<Byte>)
    requires w > 0 && n < Pow2(w)
    ensures s == Encode(n)
  {
    var tmp, last := CollectDigits(n, w);
    s := [];
    var len: int := last;
    while len >= 0
      invariant -1 <= len <= last < tmp.Length && s + Reversed(tmp[..len + 1]) == Encode(n)
    {
      assert tmp[..len + 1] == tmp[..len] + [tmp[len]];
      ReversedAppend(tmp[..len], [tmp[len]]);
      s := s + [tmp[len]];
      len := len - 1;
    }
  }

  /** Shifting left by seven bits in an unsigned type with m values. */
  function Shifted(m: nat, n: nat): nat
    requires m > 0
  {
    n * 128 % m
  }

  /** Counting up in an unsigned type with m values. */
  function Counted(m: nat, n: nat): (k: nat)
    requires m > 0
    ensures k < m
  {
    (n + 1) % m
  }

  /** ReadVarInt, for an unsigned type with m values: shifting left and counting up wrap around. */
  method ReadVarInt(m: nat, s: seq<Byte>) returns (r: Option<Parsed<nat>>)
    requires m > 0 && m % 128 == 0
    ensures r == ReadAs(m, s)
  {
    var n: nat := 0;
    var rest := s;
    while |rest| > 0
      invariant n < m && ReadAs(m, s) == Wrapped(m, Decode(rest, n))
    {
      var ch := rest[0];
      NextByte(m, rest, n);
      n := Shifted(m, n) + ch % 128;
      rest := rest[1..];
      if ch < 128 { return Some(Parsed(n, rest)); }
      n := Counted(m, n);
    }
    r := None;
  }

  /** ReadVarInt, for a signed type of 32 bits. */
  method ReadVarSigned(s: seq<Byte>) returns (r: Option<Parsed<int>>)
    ensures r == ReadInt(s)
  {
    var u := ReadVarInt(UINT, s);
    r := if u.None? then None else Some(Parsed(AsInt(u.value.value), u.value.rest));
  }

  /** What one more byte does to the number so far. */
  lemma NextByte(m: nat, rest: seq<Byte>, n: nat)
    requires m > 0 && m % 128 == 0 && |rest| > 0
    ensures var k := Shifted(m, n) + rest[0] % 128;
      && k < m
      && Wrapped(m, Decode(rest, n)) ==
         if rest[0] < 128 then Some(Parsed(k, rest[1..])) else Wrapped(m, Decode(rest[1..], Counted(m, k)))
  {
    var d := rest[0] % 128;
    ShiftWraps(n, m, d);
    if rest[0] >= 128 { MoreBytes(m, rest, n, d); }
  }

  lemma MoreBytes(m: nat, rest: seq<Byte>, n: nat, d: nat)
    requires m > 0 && m % 128 == 0 && d < 128 && |rest| > 0 && rest[0] == 128 + d
    ensures Wrapped(m, Decode(rest, n)) == Wrapped(m, Decode(rest[1..], Counted(m, Shifted(m, n) + d)))
  {
    CountWraps(n, m, d);
    var exact := 128 * n + d + 1;
    DecodeCongruent(m, rest[1..], exact, Counted(m, Shifted(m, n) + d));
    assert Decode(rest, n) == Decode(rest[1..], exact);
  }

  lemma CountWraps(n: nat, m: nat, d: nat)
    requires m > 0 && m % 128 == 0 && d < 128
    ensures (128 * n + d + 1) % m == Counted(m, Shifted(m, n) + d) % m
  {
    ShiftWraps(n, m, d);
    ModPlus(128 * n + d, m, 1);
    QuotientIsUnique(Counted(m, Shifted(m, n) + d), m, 0, Counted(m, Shifted(m, n) + d));
  }

  lemma ModPlus(n: nat, m: nat, d: nat)
    requires m > 0
    ensures (n % m + d) % m == (n + d) % m
  {
    AddMultiple(n % m + d, m, n / m);
  }

  /** Shifting by seven bits leaves room for seven more. */
  lemma ShiftWraps(n: nat, m: nat, d: nat)
    requires m > 0 && m % 128 == 0 && d < 128
    ensures Shifted(m, n) + d == (128 * n + d) % m < m
  {
    var k, q := m / 128, n * 128 / m;
    var r := n * 128 % m;
    assert n * 128 == q * m + r;
    assert r == 128 * (n - q * k) by { assert q * m == 128 * (q * k); }
    QuotientIsUnique(128 * n + d, m, q, r + d);
  }

  /** Numbers that agree in an unsigned type lead to results that do. */
  lemma {:induction false} DecodeCongruent(m: nat, s: seq<Byte>, n: nat, k: nat)
    requires m > 0 && n % m == k % m
    ensures Wrapped(m, Decode(s, n)) == Wrapped(m, Decode(s, k))
    decreases |s|
  {
    if |s| > 0 {
      var d: nat := if s[0] >= 128 then s[0] - 128 + 1 else s[0];
      NextCongruent(m, n, k, d);
      DecodeCongruent(m, s[1..], 128 * n + d, 128 * k + d);
    }
  }

  lemma NextCongruent(m: nat, n: nat, k: nat, d: nat)
    requires m > 0 && n % m == k % m
    ensures (128 * n + d) % m == (128 * k + d) % m
  {
    var i, j := n / m, k / m;
    assert 128 * n + d == 128 * (n % m) + d + 128 * i * m by { assert n == i * m + n % m; }
    assert 128 * k + d == 128 * (k % m) + d + 128 * j * m by { assert k == j * m + k % m; }
    AddMultiple(128 * (n % m) + d, m, 128 * i);
    AddMultiple(128 * (k % m) + d, m, 128 * j);
  }

  // ----- properties -----

  /** The digits of n lead the reader to n, whatever follows. */
  lemma {:induction false} DecodeDigits(n: nat, more: bool, t: seq<Byte>)
    ensures more ==> Decode(Digits(n, more) + t, 0) == Decode(t, n + 1)
    ensures !more ==> Decode(Digits(n, more) + t, 0) == Some(Parsed(n, t))
  {
    var d: seq<Byte> := [n % 128 + if more then 128 else 0];
    assert (d + t)[1..] == t;
    if n >= 128 {
      var k := n / 128 - 1;
      assert n == 128 * (k + 1) + n % 128;
      DigitsStep(n, more);
      DecodeDigits(k, true, d + t);
      assert Decode(d + t, k + 1) == if more then Decode(t, n + 1) else Some(Parsed(n, t));
      assert Digits(n, more) + t == Digits(n / 128 - 1, true) + (d + t);
    }
  }

  /** Bytes stand for every non-negative integer, and for no negative one. */
  lemma EncodingStandsFor(n: int, t: seq<Byte>)
    ensures n >= 0 <==> Decode(Encode(n) + t, 0) == Some(Parsed(n, t))
  {
    if n >= 0 {
      DecodeDigits(n, false, t);
    } else {
      assert (Encode(n) + t)[1..] == t;
    }
  }

  /** An integer is read back exactly when it is a value of the reader's type. */
  lemma RoundTrip(m: nat, n: int, t: seq<Byte>)
    requires m > 0
    ensures ReadAs(m, Encode(n) + t) == Some(Parsed(n, t)) <==> 0 <= n < m
  {
    EncodingStandsFor(n, t);
  }

  /** What an integer of a signed type is read back as: of a negative one, seven bits. */
  function Stored(n: int): nat {
    if n >= 0 then n else n % 128
  }

  lemma StoredIsDecoded(n: int, t: seq<Byte>)
    ensures Decode(Encode(n) + t, 0) == Some(Parsed(Stored(n), t))
  {
    EncodingStandsFor(n, t);
    if n < 0 { assert (Encode(n) + t)[1..] == t; }
  }

  lemma StoredIsRead(n: int, t: seq<Byte>)
    requires IsInt(n)
    ensures ReadInt(Encode(n) + t) == Some(Parsed(Stored(n), t))
  {
    StoredIsDecoded(n, t);
  }

  lemma DigitAppended(n: nat, d: nat, more: bool)
    requires d < 128
    ensures Digits(128 * (n + 1) + d, more) == Digits(n, true) + [d + if more then 128 else 0]
  {
    assert (128 * (n + 1) + d) / 128 == n + 1 && (128 * (n + 1) + d) % 128 == d;
  }

  lemma {:induction false} DecodedAreDigits(s: seq<Byte>, n: nat)
    requires Decode(s, n).Some?
    ensures var r := Decode(s, n).value;
      (if n == 0 then [] else Digits(n - 1, true)) + s == Digits(r.value, false) + r.rest
    decreases |s|
  {
    var p: seq<Byte> := if n == 0 then [] else Digits(n - 1, true);
    var more := s[0] >= 128;
    var d := if more then s[0] - 128 else s[0];
    if n > 0 { DigitAppended(n - 1, d, more); }
    assert s == [s[0]] + s[1..];
    assert p + s == p + [s[0]] + s[1..];
    if more { DecodedAreDigits(s[1..], 128 * n + d + 1); }
  }

  /** Every integer has exactly one encoding: what bytes stand for is written as those bytes. */
  lemma DecodedIsEncoded(s: seq<Byte>)
    requires Decode(s, 0).Some?
    ensures var r := Decode(s, 0).value;
      s == Encode(r.value) + r.rest
  {
    DecodedAreDigits(s, 0);
    var r := Decode(s, 0).value;
    assert [] + s == s;
  }

  /** What is read is written as the bytes it was read from exactly when their number is a value of the type. */
  lemma EncodingIsUnique(m: nat, s: seq<Byte>)
    requires m > 0 && Decode(s, 0).Some?
    ensures var r := ReadAs(m, s).value;
      s == Encode(r.value) + r.rest <==> Decode(s, 0).value.value < m
  {
    var exact, r := Decode(s, 0).value, ReadAs(m, s).value;
    DecodedIsEncoded(s);
    EncodingStandsFor(r.value, r.rest);
    assert r.value == exact.value <==> exact.value < m;
  }

  /** The bytes of 2^32 are read as 0 by a reader of 32 bits, though 0 is written otherwise. */
  lemma WrappedStream()
    ensures Decode(WRAPPED, 0) == Some(Parsed(UINT, []))
    ensures ReadAs(UINT, WRAPPED) == Some(Parsed(0, [])) && Encode(0) == [0x00] != WRAPPED
  {
    assert Decode(WRAPPED[1..], 0x0F) == Decode(WRAPPED[2..], 0x7FF);
    assert Decode(WRAPPED[2..], 0x7FF) == Decode(WRAPPED[3..], 0x3FFFF);
    assert Decode(WRAPPED[3..], 0x3FFFF) == Decode(WRAPPED[4..], 0x2000000);
    assert Decode(WRAPPED[4..], 0x2000000) == Some(Parsed(UINT, WRAPPED[5..]));
  }

  const WRAPPED: seq<Byte> := [0x8E, 0xFE, 0xFE, 0xFF, 0x00]
}
